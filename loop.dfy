/** Several iterations of the decode loop in a row, each waiting for the next
    edge and classifying its distance to the previous one: how a preamble is
    counted, how a header opens the data portion, how the 66 bits of a code
    word fill its fields, and how these runs sit inside the whole decode. */
module Loop {
  import opened Numerals
  import opened Timing
  import opened Machine
  import opened Properties

  // ----- the loop, iteration by iteration -----

  /** The duration the next iteration classifies: from the previous edge to
      the next edge in the capture. */
  function NextGap(s: State, samplerate: nat): real
    requires samplerate > 0 && s.cursor < |s.edges|
  {
    Duration(s.edges[s.cursor], s.prevN, samplerate)
  }

  /** `k` iterations of the decode loop from `s`; `halted` when the edges run
      out before the `k`-th iteration is complete. */
  function Feed(s: State, samplerate: nat, k: nat): (r: Outcome)
    requires Inv(s) && samplerate > 0
    ensures Inv(r.st) && r.st.edges == s.edges && s.cursor <= r.st.cursor
    decreases k
  {
    if k == 0 then Outcome(s, false)
    else if s.cursor == |s.edges| then Outcome(s, true)
    else
      var o := EdgeStep(s, samplerate);
      if o.halted then o else Feed(o.st, samplerate, k - 1)
  }

  /** The durations those iterations classify, in order of arrival: all
      `k` of them unless the edges run out first. */
  function Durations(s: State, samplerate: nat, k: nat): (ts: seq<real>)
    requires Inv(s) && samplerate > 0
    ensures |ts| <= k
    decreases k
  {
    if k == 0 || s.cursor == |s.edges| then []
    else
      var o := EdgeStep(s, samplerate);
      [NextGap(s, samplerate)] + (if o.halted then [] else Durations(o.st, samplerate, k - 1))
  }

  lemma FeedZero(s: State, samplerate: nat)
    requires Inv(s) && samplerate > 0
    ensures Feed(s, samplerate, 0) == Outcome(s, false) && Durations(s, samplerate, 0) == []
  {
  }

  /** Unfolding one iteration that did not halt. */
  lemma FeedStep(s: State, samplerate: nat, k: nat)
    requires Inv(s) && samplerate > 0 && k > 0 && s.cursor < |s.edges|
    requires !EdgeStep(s, samplerate).halted
    ensures Feed(s, samplerate, k) == Feed(EdgeStep(s, samplerate).st, samplerate, k - 1)
  {
  }

  lemma DurationsStep(s: State, samplerate: nat, k: nat)
    requires Inv(s) && samplerate > 0 && k > 0 && s.cursor < |s.edges|
    requires !EdgeStep(s, samplerate).halted
    ensures Durations(s, samplerate, k)
            == [NextGap(s, samplerate)] + Durations(EdgeStep(s, samplerate).st, samplerate, k - 1)
  {
  }

  /** The first of `a` iterations that did not halt, and what `a + b`
      iterations leave after it. */
  lemma AppendAdvance(s: State, samplerate: nat, a: nat, b: nat)
    requires Inv(s) && samplerate > 0 && 0 < a && !Feed(s, samplerate, a).halted
    ensures s.cursor < |s.edges| && !EdgeStep(s, samplerate).halted
    ensures var o := EdgeStep(s, samplerate);
      && Feed(s, samplerate, a) == Feed(o.st, samplerate, a - 1)
      && Feed(s, samplerate, a + b) == Feed(o.st, samplerate, a - 1 + b)
      && Durations(s, samplerate, a) == [NextGap(s, samplerate)] + Durations(o.st, samplerate, a - 1)
      && Durations(s, samplerate, a + b) == [NextGap(s, samplerate)] + Durations(o.st, samplerate, a - 1 + b)
  {
    FeedStep(s, samplerate, a);
    FeedStep(s, samplerate, a + b);
    DurationsStep(s, samplerate, a);
    DurationsStep(s, samplerate, a + b);
    assert a + b - 1 == a - 1 + b;
  }

  /** `a + b` iterations are `a` iterations followed by `b` more, and the
      durations they classify are those of the two runs in turn. */
  lemma {:induction false} FeedAppend(s: State, samplerate: nat, a: nat, b: nat)
    requires Inv(s) && samplerate > 0 && !Feed(s, samplerate, a).halted
    ensures Feed(s, samplerate, a + b) == Feed(Feed(s, samplerate, a).st, samplerate, b)
    ensures Durations(s, samplerate, a + b)
            == Durations(s, samplerate, a) + Durations(Feed(s, samplerate, a).st, samplerate, b)
    decreases a
  {
    hide *;
    if a == 0 {
      FeedZero(s, samplerate);
      assert a + b == b;
      assert Durations(s, samplerate, a) + Durations(s, samplerate, b) == Durations(s, samplerate, b);
    } else {
      AppendAdvance(s, samplerate, a, b);
      var o := EdgeStep(s, samplerate);
      FeedAppend(o.st, samplerate, a - 1, b);
      var g := [NextGap(s, samplerate)];
      var d1 := Durations(o.st, samplerate, a - 1);
      var d2 := Durations(Feed(s, samplerate, a).st, samplerate, b);
      assert g + (d1 + d2) == (g + d1) + d2;
    }
  }

  /** The loop body halts only where `decode`'s loop ends: on a valid bit
      whose closing edge is past the end of the capture. */
  lemma EdgeStepHaltsAtEnd(s: State, samplerate: nat)
    requires Inv(s) && samplerate > 0 && s.cursor < |s.edges|
    ensures var o := EdgeStep(s, samplerate); o.halted ==> o.st.cursor == |s.edges|
  {
    var s1 := Wait(s).st.(n := s.edges[s.cursor]);
    var t := NextGap(s, samplerate);
    if s1.headerCompleted && ValidHalfBit(t) {
      HalfBitClassified(s1, t);
    }
  }

  /** The whole decode loop from `s` goes through the state reached after
      any number of iterations. */
  lemma {:induction false} RunAfterFeed(s: State, samplerate: nat, k: nat)
    requires Inv(s) && samplerate > 0
    ensures Run(s, samplerate) == Run(Feed(s, samplerate, k).st, samplerate)
    decreases k
  {
    hide *;
    if k == 0 {
      FeedZero(s, samplerate);
    } else {
      FeedCases(s, samplerate, k);
      if s.cursor < |s.edges| {
        RunCases(s, samplerate);
        var o := EdgeStep(s, samplerate);
        if o.halted {
          EdgeStepHaltsAtEnd(s, samplerate);
          RunAtEnd(o.st, samplerate);
        } else {
          RunAfterFeed(o.st, samplerate, k - 1);
        }
      }
    }
  }

  /** One iteration of `Feed`, whether or not it halts. */
  lemma FeedCases(s: State, samplerate: nat, k: nat)
    requires Inv(s) && samplerate > 0 && 0 < k
    ensures s.cursor <= |s.edges|
    ensures s.cursor == |s.edges| ==> Feed(s, samplerate, k) == Outcome(s, true)
    ensures s.cursor < |s.edges| ==>
      var o := EdgeStep(s, samplerate);
      Feed(s, samplerate, k) == if o.halted then o else Feed(o.st, samplerate, k - 1)
  {
  }

  /** One iteration of the whole decode loop. */
  lemma RunCases(s: State, samplerate: nat)
    requires Inv(s) && samplerate > 0 && s.cursor < |s.edges|
    ensures var o := EdgeStep(s, samplerate);
      Run(s, samplerate) == if o.halted then o.st else Run(o.st, samplerate)
  {
  }

  /** The loop stops where the edges run out. */
  lemma RunAtEnd(s: State, samplerate: nat)
    requires Inv(s) && samplerate > 0 && s.cursor == |s.edges|
    ensures Run(s, samplerate) == s
  {
  }

  // ----- the preamble and the header -----

  predicate AllPulses(ts: seq<real>) {
    forall i :: 0 <= i < |ts| ==> InShortTe(ts[i]) || InStdTe(ts[i])
  }

  /** One preamble pulse takes one edge and is counted. */
  lemma PulseStep(s: State, samplerate: nat)
    requires Inv(s) && samplerate > 0 && !s.headerCompleted && s.cursor < |s.edges|
    requires InShortTe(NextGap(s, samplerate)) || InStdTe(NextGap(s, samplerate))
    ensures var o := EdgeStep(s, samplerate);
      && !o.halted && !o.st.headerCompleted && o.st.teCnt == s.teCnt + 1
      && o.st.cursor == s.cursor + 1
      && o.st.bitString == s.bitString && o.st.keyLoq == s.keyLoq
  {
    PreamblePulseCounts(Wait(s).st.(n := s.edges[s.cursor]), NextGap(s, samplerate));
  }

  lemma PulsesTail(ts: seq<real>)
    requires |ts| > 0 && AllPulses(ts)
    ensures (InShortTe(ts[0]) || InStdTe(ts[0])) && AllPulses(ts[1..])
  {
    assert forall i :: 0 <= i < |ts| - 1 ==> ts[1..][i] == ts[i + 1];
  }

  /** The first of `k` pulses, with what remains to be fed after it. */
  lemma PulseAdvance(s: State, samplerate: nat, k: nat)
    requires Inv(s) && samplerate > 0 && !s.headerCompleted && 0 < k && s.cursor + k <= |s.edges|
    requires AllPulses(Durations(s, samplerate, k))
    ensures var o := EdgeStep(s, samplerate);
      && !o.halted && !o.st.headerCompleted && o.st.teCnt == s.teCnt + 1
      && o.st.cursor == s.cursor + 1
      && o.st.bitString == s.bitString && o.st.keyLoq == s.keyLoq
      && Feed(s, samplerate, k) == Feed(o.st, samplerate, k - 1)
      && Durations(s, samplerate, k) == [NextGap(s, samplerate)] + Durations(o.st, samplerate, k - 1)
      && AllPulses(Durations(o.st, samplerate, k - 1))
  {
    var ts := Durations(s, samplerate, k);
    PulsesTail(ts);
    PulseStep(s, samplerate);
    FeedStep(s, samplerate, k);
    DurationsStep(s, samplerate, k);
  }

  /** `k` pulses in the TE windows, one edge each, raise the count by `k`. */
  lemma {:induction false} PulsesCounted(s: State, samplerate: nat, k: nat)
    requires Inv(s) && samplerate > 0 && !s.headerCompleted && s.cursor + k <= |s.edges|
    requires AllPulses(Durations(s, samplerate, k))
    ensures var r := Feed(s, samplerate, k);
      && |Durations(s, samplerate, k)| == k
      && !r.halted && !r.st.headerCompleted && r.st.teCnt == s.teCnt + k
      && r.st.cursor == s.cursor + k
      && r.st.bitString == s.bitString && r.st.keyLoq == s.keyLoq
    decreases k
  {
    hide *;
    if k == 0 {
      FeedZero(s, samplerate);
    } else {
      PulseAdvance(s, samplerate, k);
      PulsesCounted(EdgeStep(s, samplerate).st, samplerate, k - 1);
    }
  }

  /** After 23 standard or 45 short pulses a header gap opens the data
      portion at bit 0, in a single edge. */
  lemma HeaderStep(s: State, samplerate: nat)
    requires Inv(s) && samplerate > 0 && !s.headerCompleted && s.cursor < |s.edges|
    requires s.teCnt == PreambleCountStd || s.teCnt == PreambleCountShort
    requires InHeader(NextGap(s, samplerate))
    ensures var o := EdgeStep(s, samplerate);
      && !o.halted && o.st.headerCompleted && o.st.bitCnt == 0 && o.st.teCnt == 0
      && o.st.cursor == s.cursor + 1
      && o.st.bitString == s.bitString && o.st.keyLoq == s.keyLoq
  {
    HeaderRecognised(Wait(s).st.(n := s.edges[s.cursor]), NextGap(s, samplerate));
  }

  // ----- the multi-bit fields -----

  /** The bits that valid durations stand for, in order of arrival. */
  function Bits(ts: seq<real>): (b: seq<char>)
    ensures |b| == |ts| && IsBinary(b)
  {
    if ts == [] then [] else [BitOf(ts[0])] + Bits(ts[1..])
  }

  /** The text a multi-bit field whose bits have the durations `ts` is
      stored as: `Bin2Hex` of the accumulation, in which each bit was
      prepended, so the last one received comes first. */
  function FieldText(ts: seq<real>): (h: string)
    requires |ts| > 0
    ensures |h| >= 9 && h[..2] == "0x"
    ensures IsUpperHex(h[2..]) && HexValue(h[2..]) == LsbValue(Bits(ts))
    ensures |ts| <= 28 ==> |h| == 9
    ensures |ts| <= 32 ==> |h| <= 10
  {
    FreshFieldRendering(Bits(ts));
    Bin2Hex(Reverse(Bits(ts)))
  }

  predicate AllValid(ts: seq<real>) {
    forall i :: 0 <= i < |ts| ==> ValidHalfBit(ts[i])
  }

  lemma ValidTail(ts: seq<real>)
    requires |ts| > 0 && AllValid(ts)
    ensures ValidHalfBit(ts[0]) && AllValid(ts[1..])
  {
    assert forall i :: 0 <= i < |ts| - 1 ==> ts[1..][i] == ts[i + 1];
  }

  /** One valid bit of a multi-bit field takes two edges: the bit is
      prepended to the accumulation, which is rendered and stored at bit 31
      (Encrypted) and bit 59 (Serial-Number). */
  lemma FieldStep(s: State, samplerate: nat)
    requires Inv(s) && samplerate > 0 && s.headerCompleted && s.bitCnt <= 59
    requires s.cursor + 1 < |s.edges| && ValidHalfBit(NextGap(s, samplerate))
    ensures IsBinary([BitOf(NextGap(s, samplerate))] + s.bitString)
    ensures var o := EdgeStep(s, samplerate);
      var acc := [BitOf(NextGap(s, samplerate))] + s.bitString;
      && !o.halted && o.st.headerCompleted && o.st.bitCnt == s.bitCnt + 1
      && o.st.cursor == s.cursor + 2
      && (s.bitCnt != 31 && s.bitCnt != 59 ==> o.st.bitString == acc && o.st.keyLoq == s.keyLoq)
      && (s.bitCnt == 31 ==> o.st.bitString == "" && o.st.keyLoq == s.keyLoq[Encrypted := Bin2Hex(acc)])
      && (s.bitCnt == 59 ==> o.st.bitString == "" && o.st.keyLoq == s.keyLoq[SerialNumber := Bin2Hex(acc)])
  {
    FieldBitRouted(Wait(s).st.(n := s.edges[s.cursor]), NextGap(s, samplerate));
  }

  lemma {:induction false} ReverseCons(c: char, bits: seq<char>)
    ensures Reverse([c] + bits) == Reverse(bits) + [c]
    decreases |bits|
  {
    if bits == [] {
      assert [c] + bits == [c];
    } else {
      var pre := bits[..|bits| - 1];
      assert ([c] + bits)[..|bits|] == [c] + pre;
      ReverseCons(c, pre);
    }
  }

  /** Prepending the first bit of a run to what the rest of the run
      accumulates on top of it. */
  lemma PrependFirst(t: real, rest: seq<real>, acc: string)
    ensures Bits([t] + rest) == [BitOf(t)] + Bits(rest)
    ensures Reverse(Bits(rest)) + ([BitOf(t)] + acc) == Reverse(Bits([t] + rest)) + acc
  {
    assert ([t] + rest)[1..] == rest;
    ReverseCons(BitOf(t), Bits(rest));
  }

  /** The first of `k` valid bits of a multi-bit field, with what remains
      to be fed after it. */
  lemma FieldAdvance(s: State, samplerate: nat, k: nat)
    requires Inv(s) && samplerate > 0 && s.headerCompleted && s.bitCnt <= 59
    requires 0 < k && s.cursor + 2 * k <= |s.edges| && AllValid(Durations(s, samplerate, k))
    ensures IsBinary([BitOf(NextGap(s, samplerate))] + s.bitString)
    ensures var o := EdgeStep(s, samplerate);
      var acc := [BitOf(NextGap(s, samplerate))] + s.bitString;
      && !o.halted && o.st.headerCompleted && o.st.bitCnt == s.bitCnt + 1
      && o.st.cursor == s.cursor + 2
      && (s.bitCnt != 31 && s.bitCnt != 59 ==> o.st.bitString == acc && o.st.keyLoq == s.keyLoq)
      && (s.bitCnt == 31 ==> o.st.bitString == "" && o.st.keyLoq == s.keyLoq[Encrypted := Bin2Hex(acc)])
      && (s.bitCnt == 59 ==> o.st.bitString == "" && o.st.keyLoq == s.keyLoq[SerialNumber := Bin2Hex(acc)])
      && Feed(s, samplerate, k) == Feed(o.st, samplerate, k - 1)
      && Durations(s, samplerate, k) == [NextGap(s, samplerate)] + Durations(o.st, samplerate, k - 1)
      && AllValid(Durations(o.st, samplerate, k - 1))
  {
    ValidTail(Durations(s, samplerate, k));
    FieldStep(s, samplerate);
    FeedStep(s, samplerate, k);
    DurationsStep(s, samplerate, k);
  }

  /** Inside a multi-bit field (before its last bit) `k` valid bits take
      `2 k` edges, and pile up in `bitString` last received first. */
  lemma {:induction false} BitsAccumulate(s: State, samplerate: nat, k: nat)
    requires Inv(s) && samplerate > 0 && s.headerCompleted && s.cursor + 2 * k <= |s.edges|
    requires s.bitCnt + k <= 31 || (32 <= s.bitCnt && s.bitCnt + k <= 59)
    requires AllValid(Durations(s, samplerate, k))
    ensures var r := Feed(s, samplerate, k); var ts := Durations(s, samplerate, k);
      && !r.halted && r.st.headerCompleted
      && r.st.bitCnt == s.bitCnt + k && r.st.cursor == s.cursor + 2 * k
      && r.st.bitString == Reverse(Bits(ts)) + s.bitString
      && r.st.keyLoq == s.keyLoq
    decreases k
  {
    hide *;
    if k == 0 {
      FeedZero(s, samplerate);
      NoBits(s.bitString);
    } else {
      FieldAdvance(s, samplerate, k);
      var o := EdgeStep(s, samplerate);
      BitsAccumulate(o.st, samplerate, k - 1);
      PrependFirst(NextGap(s, samplerate), Durations(o.st, samplerate, k - 1), s.bitString);
    }
  }

  /** The `k` bits that end at position `last` (31 for Encrypted, 59 for
      Serial-Number) take `2 k` edges and store, under the field's key, the
      rendering of the bits read least significant first above the
      accumulation they started on; nothing else in the code word changes. */
  lemma {:induction false} FieldCloses(s: State, samplerate: nat, k: nat, last: int, key: string)
    requires Inv(s) && samplerate > 0 && s.headerCompleted && 0 < k && s.cursor + 2 * k <= |s.edges|
    requires (last == 31 && key == Encrypted) || (last == 59 && key == SerialNumber && 32 <= s.bitCnt)
    requires s.bitCnt + k == last + 1
    requires AllValid(Durations(s, samplerate, k))
    ensures IsBinary(Reverse(Bits(Durations(s, samplerate, k))) + s.bitString)
    ensures var r := Feed(s, samplerate, k); var ts := Durations(s, samplerate, k);
      && |ts| == k && !r.halted && r.st.headerCompleted && r.st.bitCnt == last + 1
      && r.st.cursor == s.cursor + 2 * k && r.st.bitString == ""
      && r.st.keyLoq == s.keyLoq[key := Bin2Hex(Reverse(Bits(ts)) + s.bitString)]
    decreases k
  {
    hide *;
    FieldAdvance(s, samplerate, k);
    var o := EdgeStep(s, samplerate);
    var rest := Durations(o.st, samplerate, k - 1);
    PrependFirst(NextGap(s, samplerate), rest, s.bitString);
    if k == 1 {
      assert k - 1 == 0;
      FeedZero(o.st, samplerate);
      LastFieldBit(NextGap(s, samplerate), rest, s.bitString);
    } else {
      FieldCloses(o.st, samplerate, k - 1, last, key);
    }
  }

  lemma NoBits(acc: string)
    ensures Reverse(Bits([])) + acc == acc
  {
    assert Reverse(Bits([])) == [];
  }

  lemma LastFieldBit(t: real, rest: seq<real>, acc: string)
    requires rest == []
    ensures Reverse(Bits(rest)) + ([BitOf(t)] + acc) == [BitOf(t)] + acc
  {
    assert Reverse(Bits(rest)) == [];
  }

  /** The 32 bits of the encrypted portion take 64 edges; first received
      bit least significant, the Encrypted field denotes the sum of
      b_i * 2^i, shifted above whatever `bitString` held when the data
      portion began. */
  lemma EncryptedValue(s: State, samplerate: nat)
    requires Inv(s) && samplerate > 0 && s.headerCompleted && s.bitCnt == 0
    requires s.cursor + 64 <= |s.edges| && AllValid(Durations(s, samplerate, 32))
    ensures var r := Feed(s, samplerate, 32); var ts := Durations(s, samplerate, 32);
      && |ts| == 32 && !r.halted && r.st.bitCnt == 32 && r.st.bitString == "" && r.st.cursor == s.cursor + 64
      && Encrypted in r.st.keyLoq
      && |r.st.keyLoq[Encrypted]| >= 9 && IsUpperHex(r.st.keyLoq[Encrypted][2..])
      && HexValue(r.st.keyLoq[Encrypted][2..])
         == LsbValue(Bits(ts)) * Pow2(|s.bitString|) + BinValue(s.bitString)
      && (forall k :: k in s.keyLoq && k != Encrypted ==> k in r.st.keyLoq && r.st.keyLoq[k] == s.keyLoq[k])
  {
    var ts := Durations(s, samplerate, 32);
    FieldCloses(s, samplerate, 32, 31, Encrypted);
    ReceivedFieldRendering(Bits(ts), s.bitString);
  }

  /** Started from an empty accumulation, the Encrypted field is the 32 bits
      read least significant first, in seven or eight hex digits. */
  lemma EncryptedLsbFirst(s: State, samplerate: nat)
    requires Inv(s) && samplerate > 0 && s.headerCompleted && s.bitCnt == 0 && s.bitString == ""
    requires s.cursor + 64 <= |s.edges| && AllValid(Durations(s, samplerate, 32))
    ensures var r := Feed(s, samplerate, 32); var ts := Durations(s, samplerate, 32);
      && |ts| == 32 && !r.halted && r.st.headerCompleted && r.st.bitCnt == 32 && r.st.bitString == ""
      && r.st.cursor == s.cursor + 64
      && Encrypted in r.st.keyLoq && 9 <= |r.st.keyLoq[Encrypted]| <= 10
      && r.st.keyLoq[Encrypted] == FieldText(ts)
      && IsUpperHex(r.st.keyLoq[Encrypted][2..])
      && HexValue(r.st.keyLoq[Encrypted][2..]) == LsbValue(Bits(ts))
  {
    var ts := Durations(s, samplerate, 32);
    FieldCloses(s, samplerate, 32, 31, Encrypted);
    FreshFieldRendering(Bits(ts));
    assert Reverse(Bits(ts)) + s.bitString == Reverse(Bits(ts));
  }

  /** After an invalid bit at positions 0-59 `bitString` is "0", and the
      preamble detector does not touch it, so it is still "0" when the next
      data portion begins: that code word's Encrypted field then denotes
      twice the value of its 32 bits, the stale '0' standing below them. */
  lemma StaleZeroDoublesEncrypted(s: State, samplerate: nat)
    requires Inv(s) && samplerate > 0 && s.headerCompleted && s.bitCnt == 0 && s.bitString == "0"
    requires s.cursor + 64 <= |s.edges| && AllValid(Durations(s, samplerate, 32))
    ensures var r := Feed(s, samplerate, 32); var ts := Durations(s, samplerate, 32);
      && Encrypted in r.st.keyLoq && |r.st.keyLoq[Encrypted]| >= 9
      && IsUpperHex(r.st.keyLoq[Encrypted][2..])
      && HexValue(r.st.keyLoq[Encrypted][2..]) == 2 * LsbValue(Bits(ts))
  {
    var ts := Durations(s, samplerate, 32);
    FieldCloses(s, samplerate, 32, 31, Encrypted);
    StaleZeroRendering(Bits(ts));
  }

  /** The 28 bits of the serial number take 56 edges and are read least
      significant first after the encrypted portion cleared the
      accumulation, in exactly seven hex digits. */
  lemma SerialNumberLsbFirst(s: State, samplerate: nat)
    requires Inv(s) && samplerate > 0 && s.headerCompleted && s.bitCnt == 32 && s.bitString == ""
    requires s.cursor + 56 <= |s.edges| && AllValid(Durations(s, samplerate, 28))
    ensures var r := Feed(s, samplerate, 28); var ts := Durations(s, samplerate, 28);
      && |ts| == 28 && !r.halted && r.st.headerCompleted && r.st.bitCnt == 60 && r.st.bitString == ""
      && r.st.cursor == s.cursor + 56
      && SerialNumber in r.st.keyLoq && |r.st.keyLoq[SerialNumber]| == 9
      && r.st.keyLoq[SerialNumber] == FieldText(ts)
      && IsUpperHex(r.st.keyLoq[SerialNumber][2..])
      && HexValue(r.st.keyLoq[SerialNumber][2..]) == LsbValue(Bits(ts))
      && (forall k :: k in s.keyLoq && k != SerialNumber ==> k in r.st.keyLoq && r.st.keyLoq[k] == s.keyLoq[k])
  {
    var ts := Durations(s, samplerate, 28);
    FieldCloses(s, samplerate, 28, 59, SerialNumber);
    FreshFieldRendering(Bits(ts));
    assert Reverse(Bits(ts)) + s.bitString == Reverse(Bits(ts));
  }

  // ----- the button code and the flags -----

  /** One valid bit from 60 on: the button bits and the battery flag take two
      edges each, the repeat flag one edge, after which the decoder is back
      to looking for a preamble. */
  lemma TailStep(s: State, samplerate: nat)
    requires Inv(s) && samplerate > 0 && s.headerCompleted && 60 <= s.bitCnt
    requires s.cursor + (if s.bitCnt == 65 then 1 else 2) <= |s.edges|
    requires ValidHalfBit(NextGap(s, samplerate))
    ensures var o := EdgeStep(s, samplerate); var b := BitOf(NextGap(s, samplerate));
      && !o.halted
      && (s.bitCnt < 65 ==> o.st.headerCompleted && o.st.bitCnt == s.bitCnt + 1 && o.st.cursor == s.cursor + 2)
      && (s.bitCnt < 64 ==> o.st.keyLoq == s.keyLoq[[S3, S0, S1, S2][s.bitCnt - 60] := [b]])
      && (s.bitCnt == 64 ==> o.st.keyLoq == s.keyLoq[VLow := BatteryText(b)])
      && (s.bitCnt == 65 ==> o.st.keyLoq == s.keyLoq[Rpt := RepeatText(b)])
      && (s.bitCnt == 65 ==>
            !o.st.headerCompleted && o.st.bitCnt == 0 && o.st.cursor == s.cursor + 1 && o.st.bitString == "")
  {
    var s1 := Wait(s).st.(n := s.edges[s.cursor]);
    if s.bitCnt < 64 {
      ButtonBitRouted(s1, NextGap(s, samplerate));
    } else {
      FlagBitRouted(s1, NextGap(s, samplerate));
    }
  }

  /** The first of `k` bits from 60 on, with what remains to be fed after it. */
  lemma TailAdvance(s: State, samplerate: nat, k: nat)
    requires Inv(s) && samplerate > 0 && s.headerCompleted && 60 <= s.bitCnt && 0 < k
    requires s.cursor + (if s.bitCnt == 65 then 1 else 2) <= |s.edges|
    requires AllValid(Durations(s, samplerate, k))
    ensures var o := EdgeStep(s, samplerate); var b := BitOf(NextGap(s, samplerate));
      && !o.halted
      && (s.bitCnt < 65 ==> o.st.headerCompleted && o.st.bitCnt == s.bitCnt + 1 && o.st.cursor == s.cursor + 2)
      && (s.bitCnt < 64 ==> o.st.keyLoq == s.keyLoq[[S3, S0, S1, S2][s.bitCnt - 60] := [b]])
      && (s.bitCnt == 64 ==> o.st.keyLoq == s.keyLoq[VLow := BatteryText(b)])
      && (s.bitCnt == 65 ==> o.st.keyLoq == s.keyLoq[Rpt := RepeatText(b)])
      && (s.bitCnt == 65 ==>
            !o.st.headerCompleted && o.st.bitCnt == 0 && o.st.cursor == s.cursor + 1 && o.st.bitString == "")
      && Feed(s, samplerate, k) == Feed(o.st, samplerate, k - 1)
      && Durations(s, samplerate, k) == [NextGap(s, samplerate)] + Durations(o.st, samplerate, k - 1)
      && AllValid(Durations(o.st, samplerate, k - 1))
  {
    ValidTail(Durations(s, samplerate, k));
    TailStep(s, samplerate);
    FeedStep(s, samplerate, k);
    DurationsStep(s, samplerate, k);
  }

  /** Bits 60 to 65 take eleven edges and store, in order of arrival, S3, S0,
      S1, S2 as the bits themselves, then the battery and the repeat flags;
      the code word is then complete and the decoder looks for the next
      preamble with the counter back at 0. */
  lemma TailDecoded(s: State, samplerate: nat)
    requires Inv(s) && samplerate > 0 && s.headerCompleted && s.bitCnt == 60
    requires s.cursor + 11 <= |s.edges| && AllValid(Durations(s, samplerate, 6))
    ensures var r := Feed(s, samplerate, 6); var ts := Durations(s, samplerate, 6);
      && |ts| == 6 && !r.halted && !r.st.headerCompleted && r.st.bitCnt == 0
      && r.st.cursor == s.cursor + 11 && r.st.bitString == ""
      && r.st.keyLoq == s.keyLoq[S3 := [BitOf(ts[0])]][S0 := [BitOf(ts[1])]][S1 := [BitOf(ts[2])]]
                                [S2 := [BitOf(ts[3])]][VLow := BatteryText(BitOf(ts[4]))]
                                [Rpt := RepeatText(BitOf(ts[5]))]
  {
    hide *;
    TailAdvance(s, samplerate, 6);
    var s1 := EdgeStep(s, samplerate).st;
    TailAdvance(s1, samplerate, 5);
    var s2 := EdgeStep(s1, samplerate).st;
    TailAdvance(s2, samplerate, 4);
    var s3 := EdgeStep(s2, samplerate).st;
    TailAdvance(s3, samplerate, 3);
    var s4 := EdgeStep(s3, samplerate).st;
    TailAdvance(s4, samplerate, 2);
    var s5 := EdgeStep(s4, samplerate).st;
    TailAdvance(s5, samplerate, 1);
    var s6 := EdgeStep(s5, samplerate).st;
    FeedZero(s6, samplerate);
  }

  // ----- a whole code word -----

  /** One iteration, whether or not it halts. */
  lemma DurationsCases(s: State, samplerate: nat, k: nat)
    requires Inv(s) && samplerate > 0 && 0 < k
    ensures s.cursor <= |s.edges|
    ensures s.cursor == |s.edges| ==> Durations(s, samplerate, k) == []
    ensures s.cursor < |s.edges| ==>
      var o := EdgeStep(s, samplerate);
      Durations(s, samplerate, k)
        == [NextGap(s, samplerate)] + (if o.halted then [] else Durations(o.st, samplerate, k - 1))
  {
  }

  /** The durations of `a` iterations are where those of `a + b` iterations
      begin. */
  lemma {:induction false} DurationsPrefix(s: State, samplerate: nat, a: nat, b: nat)
    requires Inv(s) && samplerate > 0
    ensures Durations(s, samplerate, a) <= Durations(s, samplerate, a + b)
    decreases a
  {
    hide *;
    if a == 0 {
      FeedZero(s, samplerate);
    } else {
      DurationsCases(s, samplerate, a);
      DurationsCases(s, samplerate, a + b);
      if s.cursor < |s.edges| && !EdgeStep(s, samplerate).halted {
        var o := EdgeStep(s, samplerate);
        DurationsPrefix(o.st, samplerate, a - 1, b);
        assert a + b - 1 == a - 1 + b;
        ConsPrefix(NextGap(s, samplerate), Durations(o.st, samplerate, a - 1), Durations(o.st, samplerate, a - 1 + b));
      }
    }
  }

  lemma ConsPrefix(t: real, ts: seq<real>, us: seq<real>)
    requires ts <= us
    ensures [t] + ts <= [t] + us
  {
    assert ([t] + us)[..|ts| + 1] == [t] + us[..|ts|];
  }

  lemma ValidParts(ts: seq<real>, us: seq<real>)
    requires AllValid(ts + us)
    ensures AllValid(ts) && AllValid(us)
  {
    assert forall i :: 0 <= i < |ts| ==> ts[i] == (ts + us)[i];
    assert forall i :: 0 <= i < |us| ==> us[i] == (ts + us)[|ts| + i];
  }

  lemma ValidPrefix(ts: seq<real>, us: seq<real>)
    requires ts <= us && AllValid(us)
    ensures AllValid(ts)
  {
    assert forall i :: 0 <= i < |ts| ==> ts[i] == us[i];
  }

  /** The eight field names are pairwise different. */
  lemma FieldNamesDistinct()
    ensures Encrypted != SerialNumber
    ensures Encrypted !in {S3, S0, S1, S2, VLow, Rpt} && SerialNumber !in {S3, S0, S1, S2, VLow, Rpt}
    ensures S3 !in {S0, S1, S2, VLow, Rpt} && S0 !in {S1, S2, VLow, Rpt} && S1 !in {S2, VLow, Rpt}
    ensures S2 !in {VLow, Rpt} && VLow != Rpt
  {
  }

  /** The fields a code word whose 66 bits have the durations `ts` leaves:
      the key fields from bits 0-59 and the status fields from bits 60-65. */
  predicate CodeWordFields(m: map<string, string>, ts: seq<real>)
    requires |ts| == 66
  {
    KeyFields(m, ts[..60]) && StatusFields(m, ts[60..])
  }

  /** Encrypted from bits 0-31 and Serial-Number from bits 32-59, each the
      `Bin2Hex` rendering of its bits, last received first, and so denoting
      them read least significant first. */
  predicate KeyFields(m: map<string, string>, us: seq<real>)
    requires |us| == 60
  {
    && Encrypted in m && 9 <= |m[Encrypted]| <= 10
    && m[Encrypted] == FieldText(us[..32])
    && IsUpperHex(m[Encrypted][2..])
    && HexValue(m[Encrypted][2..]) == LsbValue(Bits(us[..32]))
    && SerialNumber in m && |m[SerialNumber]| == 9
    && m[SerialNumber] == FieldText(us[32..])
    && IsUpperHex(m[SerialNumber][2..])
    && HexValue(m[SerialNumber][2..]) == LsbValue(Bits(us[32..]))
  }

  /** S3, S0, S1, S2 from the first four of the last six bits, the battery
      flag from the fifth and the repeat flag from the sixth. */
  predicate StatusFields(m: map<string, string>, vs: seq<real>)
    requires |vs| == 6
  {
    && S3 in m && m[S3] == [BitOf(vs[0])]
    && S0 in m && m[S0] == [BitOf(vs[1])]
    && S1 in m && m[S1] == [BitOf(vs[2])]
    && S2 in m && m[S2] == [BitOf(vs[3])]
    && VLow in m && m[VLow] == BatteryText(BitOf(vs[4]))
    && Rpt in m && m[Rpt] == RepeatText(BitOf(vs[5]))
  }

  /** Bits 0 to 59: the Encrypted field, then the Serial-Number field. */
  lemma KeyAndSerial(s: State, samplerate: nat)
    requires Inv(s) && samplerate > 0 && s.headerCompleted && s.bitCnt == 0 && s.bitString == ""
    requires s.cursor + 120 <= |s.edges| && AllValid(Durations(s, samplerate, 60))
    ensures var r := Feed(s, samplerate, 60); var ts := Durations(s, samplerate, 60);
      && |ts| == 60 && !r.halted && r.st.headerCompleted && r.st.bitCnt == 60
      && r.st.cursor == s.cursor + 120 && r.st.bitString == ""
      && Encrypted in r.st.keyLoq && 9 <= |r.st.keyLoq[Encrypted]| <= 10
      && r.st.keyLoq[Encrypted] == FieldText(ts[..32])
      && IsUpperHex(r.st.keyLoq[Encrypted][2..])
      && HexValue(r.st.keyLoq[Encrypted][2..]) == LsbValue(Bits(ts[..32]))
      && SerialNumber in r.st.keyLoq && |r.st.keyLoq[SerialNumber]| == 9
      && r.st.keyLoq[SerialNumber] == FieldText(ts[32..])
      && IsUpperHex(r.st.keyLoq[SerialNumber][2..])
      && HexValue(r.st.keyLoq[SerialNumber][2..]) == LsbValue(Bits(ts[32..]))
  {
    hide *;
    FieldNamesDistinct();
    var ts := Durations(s, samplerate, 60);
    DurationsPrefix(s, samplerate, 32, 28);
    ValidPrefix(Durations(s, samplerate, 32), ts);
    EncryptedLsbFirst(s, samplerate);
    FeedAppend(s, samplerate, 32, 28);
    var s32 := Feed(s, samplerate, 32).st;
    ValidParts(Durations(s, samplerate, 32), Durations(s32, samplerate, 28));
    SerialNumberLsbFirst(s32, samplerate);
    assert ts[..32] == Durations(s, samplerate, 32);
    assert ts[32..] == Durations(s32, samplerate, 28);
  }

  lemma KeyFieldsIntro(m: map<string, string>, us: seq<real>)
    requires |us| == 60
    requires Encrypted in m && m[Encrypted] == FieldText(us[..32])
    requires SerialNumber in m && m[SerialNumber] == FieldText(us[32..])
    ensures KeyFields(m, us)
  {
    var key, serial := us[..32], us[32..];
    assert |key| == 32 && |serial| == 28;
    var e, n := FieldText(key), FieldText(serial);
    assert 9 <= |e| <= 10 && |n| == 9;
  }

  lemma StatusFieldsIntro(m: map<string, string>, vs: seq<real>, k: map<string, string>)
    requires |vs| == 6
    requires m == k[S3 := [BitOf(vs[0])]][S0 := [BitOf(vs[1])]][S1 := [BitOf(vs[2])]]
                   [S2 := [BitOf(vs[3])]][VLow := BatteryText(BitOf(vs[4]))]
                   [Rpt := RepeatText(BitOf(vs[5]))]
    ensures StatusFields(m, vs)
  {
    FieldNamesDistinct();
  }

  lemma CodeWordFieldsIntro(m: map<string, string>, ts: seq<real>)
    requires |ts| == 66 && KeyFields(m, ts[..60]) && StatusFields(m, ts[60..])
    ensures CodeWordFields(m, ts)
  {
  }

  /** Opened by a header with `bitString` empty, 66 valid bits take 131
      edges and fill every field of the code word: Encrypted from bits 0-31
      and Serial-Number from bits 32-59, each read least significant first
      and rendered in hex; S3, S0, S1, S2 from bits 60-63; the battery flag
      from bit 64 and the repeat flag from bit 65. The decoder is then back
      to looking for a preamble, with the counter at 0. */
  lemma CodeWordDecoded(s: State, samplerate: nat)
    requires Inv(s) && samplerate > 0 && s.headerCompleted && s.bitCnt == 0 && s.bitString == ""
    requires s.cursor + 131 <= |s.edges| && AllValid(Durations(s, samplerate, 66))
    ensures var r := Feed(s, samplerate, 66); var ts := Durations(s, samplerate, 66);
      && |ts| == 66 && !r.halted && !r.st.headerCompleted && r.st.bitCnt == 0
      && r.st.cursor == s.cursor + 131 && r.st.bitString == ""
      && CodeWordFields(r.st.keyLoq, ts)
  {
    hide *;
    FieldNamesDistinct();
    var ts := Durations(s, samplerate, 66);
    DurationsPrefix(s, samplerate, 60, 6);
    ValidPrefix(Durations(s, samplerate, 60), ts);
    KeyAndSerial(s, samplerate);
    FeedAppend(s, samplerate, 60, 6);
    var s60 := Feed(s, samplerate, 60).st;
    ValidParts(Durations(s, samplerate, 60), Durations(s60, samplerate, 6));
    TailDecoded(s60, samplerate);
    var us, vs := Durations(s, samplerate, 60), Durations(s60, samplerate, 6);
    assert ts[..60] == us && ts[60..] == vs;
    var m := Feed(s, samplerate, 66).st.keyLoq;
    assert m[Encrypted] == s60.keyLoq[Encrypted] && m[SerialNumber] == s60.keyLoq[SerialNumber];
    KeyFieldsIntro(m, us);
    StatusFieldsIntro(m, vs, s60.keyLoq);
    CodeWordFieldsIntro(m, ts);
  }

  // ----- from the preamble to the end of the capture -----

  /** The header gap that follows a complete preamble, with what remains to
      be fed after it. */
  lemma HeaderAdvance(s: State, samplerate: nat, k: nat)
    requires Inv(s) && samplerate > 0 && !s.headerCompleted && 0 < k && s.cursor < |s.edges|
    requires s.teCnt == PreambleCountStd || s.teCnt == PreambleCountShort
    requires InHeader(NextGap(s, samplerate))
    ensures var o := EdgeStep(s, samplerate);
      && !o.halted && o.st.headerCompleted && o.st.bitCnt == 0
      && o.st.cursor == s.cursor + 1 && o.st.bitString == s.bitString
      && Feed(s, samplerate, k) == Feed(o.st, samplerate, k - 1)
      && Durations(s, samplerate, k) == [NextGap(s, samplerate)] + Durations(o.st, samplerate, k - 1)
  {
    HeaderStep(s, samplerate);
    FeedStep(s, samplerate, k);
    DurationsStep(s, samplerate, k);
  }

  lemma PulsesPrefix(ts: seq<real>, us: seq<real>, p: nat)
    requires ts <= us && |ts| <= p <= |us| && AllPulses(us[..p])
    ensures AllPulses(ts)
  {
    assert forall i :: 0 <= i < |ts| ==> ts[i] == us[..p][i];
  }

  /** A preamble of `p` pulses (23 standard or 45 short ones, one edge each),
      a header gap and 66 valid bits take `p + 132` edges and leave the
      fields of that code word, with the decoder looking for the next
      preamble. */
  lemma CodeWordAfterPreamble(s: State, samplerate: nat, p: nat)
    requires Inv(s) && samplerate > 0 && !s.headerCompleted && s.teCnt == 0 && s.bitString == ""
    requires p == PreambleCountStd || p == PreambleCountShort
    requires s.cursor + p + 132 <= |s.edges|
    requires var ts := Durations(s, samplerate, p + 67);
      p < |ts| && AllPulses(ts[..p]) && InHeader(ts[p]) && AllValid(ts[p + 1..])
    ensures var r := Feed(s, samplerate, p + 67); var ts := Durations(s, samplerate, p + 67);
      && |ts| == p + 67 && !r.halted && !r.st.headerCompleted && r.st.bitCnt == 0
      && r.st.cursor == s.cursor + p + 132 && r.st.bitString == ""
      && CodeWordFields(r.st.keyLoq, ts[p + 1..])
  {
    hide *;
    var ts := Durations(s, samplerate, p + 67);
    DurationsPrefix(s, samplerate, p, 67);
    DurationsCases(s, samplerate, p + 67);
    PulsesPrefix(Durations(s, samplerate, p), ts, p);
    PulsesCounted(s, samplerate, p);
    FeedAppend(s, samplerate, p, 67);
    var sp := Feed(s, samplerate, p).st;
    assert Durations(s, samplerate, p) == ts[..p];
    assert Durations(sp, samplerate, 67) == ts[p..];
    DurationsCases(sp, samplerate, 67);
    assert NextGap(sp, samplerate) == ts[p];
    HeaderAdvance(sp, samplerate, 67);
    var sh := EdgeStep(sp, samplerate).st;
    assert Durations(sh, samplerate, 66) == ts[p + 1..];
    CodeWordDecoded(sh, samplerate);
  }

  /** The state `decode` enters its loop with: the first edge waited for and
      taken as the previous edge. */
  function Anchored(edges: seq<int>): (s: State)
    requires |edges| > 0
    ensures Inv(s) && s.edges == edges && s.cursor == 1 && s.prevN == edges[0]
    ensures !s.headerCompleted && s.teCnt == 0 && s.bitCnt == 0 && s.bitString == ""
  {
    var f := Wait(Reset(edges));
    f.st.(prevN := f.st.samplenum)
  }

  /** A capture that holds exactly one code word after its first edge:
      `decode` from a reset decoder ends with that code word's fields, and
      with the decoder looking for the next preamble. */
  lemma DecodeOneCodeWord(edges: seq<int>, samplerate: nat, p: nat)
    requires samplerate > 0 && (p == PreambleCountStd || p == PreambleCountShort)
    requires |edges| == p + 133
    requires var ts := Durations(Anchored(edges), samplerate, p + 67);
      p < |ts| && AllPulses(ts[..p]) && InHeader(ts[p]) && AllValid(ts[p + 1..])
    ensures var r := Decode(Reset(edges), samplerate); var ts := Durations(Anchored(edges), samplerate, p + 67);
      && |ts| == p + 67 && !r.headerCompleted && r.bitCnt == 0 && r.bitString == ""
      && CodeWordFields(r.keyLoq, ts[p + 1..])
  {
    var s := Anchored(edges);
    assert Decode(Reset(edges), samplerate) == Run(s, samplerate);
    CodeWordAfterPreamble(s, samplerate, p);
    RunAfterFeed(s, samplerate, p + 67);
    RunAtEnd(Feed(s, samplerate, p + 67).st, samplerate);
  }

  // ----- the durations as gaps between edges -----

  /** A valid bit 0-64 whose closing edge is past the end of the capture
      halts the loop: the converse of `EdgeStepHaltsAtEnd`. */
  lemma BitPastEndHalts(s: State, samplerate: nat)
    requires Inv(s) && samplerate > 0 && s.headerCompleted && s.bitCnt < 65
    requires s.cursor + 1 == |s.edges| && ValidHalfBit(NextGap(s, samplerate))
    ensures EdgeStep(s, samplerate).halted
  {
    HalfBitClassified(Wait(s).st.(n := s.edges[s.cursor]), NextGap(s, samplerate));
  }

  /** A turn that does not halt leaves the last edge it took as the previous
      edge: one edge for a preamble gap, an invalid bit or bit 65, two for a
      valid bit 0-64. So the next duration is always the gap between two
      consecutive edges. */
  lemma StepLinksEdges(s: State, samplerate: nat)
    requires Inv(s) && samplerate > 0 && s.cursor < |s.edges|
    ensures var o := EdgeStep(s, samplerate);
      !o.halted ==> 0 < o.st.cursor <= |s.edges| && o.st.prevN == s.edges[o.st.cursor - 1]
  {
    var t := NextGap(s, samplerate);
    if !s.headerCompleted {
      hide DataPortion;
    } else if !ValidHalfBit(t) {
      InvalidBitOneEdge(s, samplerate);
    } else if s.bitCnt == 65 {
      LastBitPadded(s, samplerate);
    } else if s.cursor + 1 < |s.edges| {
      EdgesPerBit(s, samplerate);
    } else {
      BitPastEndHalts(s, samplerate);
    }
  }

  /** The gaps between consecutive edges from edge `start` on, as
      durations: the `i`-th ends at edge `start + i`. */
  function EdgeGaps(edges: seq<int>, samplerate: nat, start: nat, k: nat): seq<real>
    requires samplerate > 0 && 0 < start && start + k <= |edges|
  {
    seq(k, i requires 0 <= i < k => Duration(edges[start + i], edges[start + i - 1], samplerate))
  }

  /** The gap before every second edge from edge `start` on, as durations:
      the first half of each of `k` bits that take two edges each. */
  function BitGaps(edges: seq<int>, samplerate: nat, start: nat, k: nat): seq<real>
    requires samplerate > 0 && 0 < start && start + 2 * k <= |edges| + 1
  {
    seq(k, j requires 0 <= j < k => Duration(edges[start + 2 * j], edges[start + 2 * j - 1], samplerate))
  }

  /** `k` preamble pulses measured on the gaps between consecutive edges:
      they are the durations the loop classifies. */
  lemma {:induction false} PreambleGaps(s: State, samplerate: nat, k: nat)
    requires Inv(s) && samplerate > 0 && !s.headerCompleted
    requires 0 < s.cursor && s.cursor + k <= |s.edges| && s.prevN == s.edges[s.cursor - 1]
    requires AllPulses(EdgeGaps(s.edges, samplerate, s.cursor, k))
    ensures Durations(s, samplerate, k) == EdgeGaps(s.edges, samplerate, s.cursor, k)
    ensures var r := Feed(s, samplerate, k).st;
      0 < r.cursor <= |s.edges| && r.prevN == s.edges[r.cursor - 1]
    decreases k
  {
    hide Feed, Durations, EdgeStep;
    var g := EdgeGaps(s.edges, samplerate, s.cursor, k);
    if k == 0 {
      FeedZero(s, samplerate);
    } else {
      assert NextGap(s, samplerate) == g[0];
      PulsesTail(g);
      PulseStep(s, samplerate);
      StepLinksEdges(s, samplerate);
      FeedStep(s, samplerate, k);
      DurationsStep(s, samplerate, k);
      var o := EdgeStep(s, samplerate).st;
      assert EdgeGaps(s.edges, samplerate, o.cursor, k - 1) == g[1..];
      PreambleGaps(o, samplerate, k - 1);
    }
  }

  lemma BitGapsShape(edges: seq<int>, samplerate: nat, start: nat, k: nat)
    requires samplerate > 0 && 0 < start && start + 2 * k <= |edges| + 1
    ensures var g := BitGaps(edges, samplerate, start, k);
      && |g| == k
      && (0 < k ==> g[0] == Duration(edges[start], edges[start - 1], samplerate)
                    && g[1..] == BitGaps(edges, samplerate, start + 2, k - 1))
  {
  }

  /** The gaps of `k + 1` bits are those of `k` bits and one more. */
  lemma BitGapsSnoc(edges: seq<int>, samplerate: nat, start: nat, k: nat)
    requires samplerate > 0 && 0 < start && start + 2 * k + 2 <= |edges| + 1
    ensures BitGaps(edges, samplerate, start, k + 1)
            == BitGaps(edges, samplerate, start, k)
               + [Duration(edges[start + 2 * k], edges[start + 2 * k - 1], samplerate)]
  {
  }

  /** One valid bit below bit 65 measured on the gap before the current
      edge, with what remains to be fed after it. */
  lemma DataBitAdvance(s: State, samplerate: nat, k: nat)
    requires Inv(s) && samplerate > 0 && s.headerCompleted && s.bitCnt < 65 && 0 < k
    requires 0 < s.cursor && s.cursor + 2 <= |s.edges| && s.prevN == s.edges[s.cursor - 1]
    requires ValidHalfBit(Duration(s.edges[s.cursor], s.edges[s.cursor - 1], samplerate))
    ensures var o := EdgeStep(s, samplerate);
      && !o.halted && o.st.headerCompleted && o.st.bitCnt == s.bitCnt + 1
      && o.st.cursor == s.cursor + 2 && o.st.prevN == s.edges[s.cursor + 1]
      && Feed(s, samplerate, k) == Feed(o.st, samplerate, k - 1)
      && Durations(s, samplerate, k)
         == [Duration(s.edges[s.cursor], s.edges[s.cursor - 1], samplerate)] + Durations(o.st, samplerate, k - 1)
  {
    hide Feed, Durations, EdgeStep;
    if s.bitCnt <= 59 {
      FieldStep(s, samplerate);
    } else {
      TailStep(s, samplerate);
    }
    StepLinksEdges(s, samplerate);
    FeedStep(s, samplerate, k);
    DurationsStep(s, samplerate, k);
  }

  /** `k` valid bits below bit 65, each taking two edges, measured on the
      gap before every second edge: they are the durations the loop
      classifies. */
  lemma {:induction false} DataGaps(s: State, samplerate: nat, k: nat)
    requires Inv(s) && samplerate > 0 && s.headerCompleted && s.bitCnt + k <= 65
    requires 0 < s.cursor && s.cursor + 2 * k <= |s.edges| && s.prevN == s.edges[s.cursor - 1]
    requires AllValid(BitGaps(s.edges, samplerate, s.cursor, k))
    ensures Durations(s, samplerate, k) == BitGaps(s.edges, samplerate, s.cursor, k)
    ensures var r := Feed(s, samplerate, k);
      && !r.halted && r.st.headerCompleted && r.st.bitCnt == s.bitCnt + k
      && r.st.cursor == s.cursor + 2 * k && r.st.prevN == s.edges[r.st.cursor - 1]
    decreases k
  {
    hide *;
    var g := BitGaps(s.edges, samplerate, s.cursor, k);
    BitGapsShape(s.edges, samplerate, s.cursor, k);
    if k == 0 {
      FeedZero(s, samplerate);
    } else {
      ValidTail(g);
      DataBitAdvance(s, samplerate, k);
      var o := EdgeStep(s, samplerate).st;
      DataGaps(o, samplerate, k - 1);
      assert [g[0]] + g[1..] == g;
    }
  }

  /** The 66 bits of a code word, right after the header, measured on the
      gap before every second edge: they are the durations the loop
      classifies, and none of them halts. */
  lemma WordFromGaps(s: State, samplerate: nat)
    requires Inv(s) && samplerate > 0 && s.headerCompleted && s.bitCnt == 0
    requires 0 < s.cursor && s.cursor + 131 <= |s.edges| && s.prevN == s.edges[s.cursor - 1]
    requires AllValid(BitGaps(s.edges, samplerate, s.cursor, 66))
    ensures Durations(s, samplerate, 66) == BitGaps(s.edges, samplerate, s.cursor, 66)
    ensures !Feed(s, samplerate, 66).halted
  {
    hide Feed, Durations, EdgeStep, BitGaps;
    var e := s.edges;
    var c := s.cursor;
    var last := Duration(e[c + 130], e[c + 129], samplerate);
    BitGapsSnoc(e, samplerate, c, 65);
    ValidParts(BitGaps(e, samplerate, c, 65), [last]);
    ValidTail([last]);
    DataGaps(s, samplerate, 65);
    FeedAppend(s, samplerate, 65, 1);
    var s65 := Feed(s, samplerate, 65).st;
    assert NextGap(s65, samplerate) == last;
    TailStep(s65, samplerate);
    DurationsStep(s65, samplerate, 1);
    FeedStep(s65, samplerate, 1);
    FeedZero(EdgeStep(s65, samplerate).st, samplerate);
  }

  /** `DecodeOneCodeWord` with its conditions on the capture itself: the
      first `p` gaps between consecutive edges are preamble pulses, the next
      one is a header gap, and the gap before every second edge after it is
      a valid half-bit, 66 times. The fields decoded are those of these
      half-bits. */
  lemma DecodeFromGaps(edges: seq<int>, samplerate: nat, p: nat)
    requires samplerate > 0 && (p == PreambleCountStd || p == PreambleCountShort)
    requires |edges| == p + 133
    requires AllPulses(EdgeGaps(edges, samplerate, 1, p))
    requires InHeader(Duration(edges[p + 1], edges[p], samplerate))
    requires AllValid(BitGaps(edges, samplerate, p + 2, 66))
    ensures var r := Decode(Reset(edges), samplerate);
      && !r.headerCompleted && r.bitCnt == 0 && r.bitString == ""
      && CodeWordFields(r.keyLoq, BitGaps(edges, samplerate, p + 2, 66))
  {
    hide Feed, Durations, EdgeStep, Decode, Run, EdgeGaps, BitGaps;
    var s := Anchored(edges);
    var pre := EdgeGaps(edges, samplerate, 1, p);
    var bits := BitGaps(edges, samplerate, p + 2, 66);
    PreambleGaps(s, samplerate, p);
    PulsesCounted(s, samplerate, p);
    FeedAppend(s, samplerate, p, 67);
    var sp := Feed(s, samplerate, p).st;
    var g := Duration(edges[p + 1], edges[p], samplerate);
    assert NextGap(sp, samplerate) == g;
    HeaderAdvance(sp, samplerate, 67);
    StepLinksEdges(sp, samplerate);
    var sh := EdgeStep(sp, samplerate).st;
    WordFromGaps(sh, samplerate);
    var ts := Durations(s, samplerate, p + 67);
    assert ts == pre + ([g] + bits);
    assert ts[..p] == pre && ts[p] == g && ts[p + 1..] == bits;
    DecodeOneCodeWord(edges, samplerate, p);
  }
}
