/** What the decoder promises, stated over the step functions of `Machine`:
    how the preamble counter and the header gap drive the machine into the
    data portion, how a half-bit is classified, how each decoded bit is
    routed to its code-word field, and what value a completed field holds. */
module Properties {
  import opened Numerals
  import opened Timing
  import opened Machine

  // ----- block start -----

  /** `Start_Block` records the previous edge only on the first call of a
      block; a second call before the block is closed changes nothing. */
  lemma StartBlockOnce(s: State)
    ensures StartBlock(s).blockInit
    ensures StartBlock(s).ssBlock == if s.blockInit then s.ssBlock else s.prevN
    ensures StartBlock(StartBlock(s)) == StartBlock(s)
  {
  }

  // ----- preamble and header -----

  /** A pulse in either TE window is counted and never resets the counter or
      completes the header, whatever the count already is: the counter keeps
      growing past 23 and 45. The block start is taken on the first pulse
      that is still below its variant's threshold. */
  lemma PreamblePulseCounts(s: State, t: real)
    requires Inv(s) && !s.headerCompleted
    requires InShortTe(t) || InStdTe(t)
    ensures var r := Body(s, t);
      && !r.halted
      && r.st.teCnt == s.teCnt + 1
      && !r.st.headerCompleted
      && r.st.bitString == s.bitString && r.st.keyLoq == s.keyLoq
      && r.st.blockInit == (s.blockInit
                            || (InShortTe(t) && s.teCnt + 1 < PreambleCountShort)
                            || (InStdTe(t) && s.teCnt + 1 < PreambleCountStd))
      && r.st.ssBlock == (if !s.blockInit && r.st.blockInit then s.prevN else s.ssBlock)
  {
  }

  /** The header is completed exactly when a gap of 3 to 6 ms arrives as the
      24th or 46th counted edge; that edge also clears the counter and the
      block start. */
  lemma HeaderRecognised(s: State, t: real)
    requires Inv(s) && !s.headerCompleted
    ensures var r := Body(s, t);
      && (r.st.headerCompleted <==>
            InHeader(t) && (s.teCnt + 1 == PreambleCountStd + 1 || s.teCnt + 1 == PreambleCountShort + 1))
      && (r.st.headerCompleted ==>
            r.st.teCnt == 0 && !r.st.blockInit && r.st.bitCnt == 0
            && r.st.anns == s.anns + [Annotation(s.prevN, s.n, CodeWord, "Header")])
  {
  }

  /** Any other duration outside both TE windows restarts the preamble
      search: counter and block start cleared, header not completed. */
  lemma PreambleRestarts(s: State, t: real)
    requires Inv(s) && !s.headerCompleted
    requires !InShortTe(t) && !InStdTe(t)
    requires !(InHeader(t) && (s.teCnt + 1 == PreambleCountStd + 1 || s.teCnt + 1 == PreambleCountShort + 1))
    ensures var r := Body(s, t);
      !r.halted && r.st.teCnt == 0 && !r.st.blockInit && !r.st.headerCompleted
      && r.st.bitString == s.bitString && r.st.keyLoq == s.keyLoq
  {
  }

  // ----- half-bit classification -----

  /** A half-bit is valid exactly in 280-580 us or 700-1000 us, so 580-700 us
      is invalid. A valid one gives '1' in the first window and '0' in the
      second and leaves the phase, counter and accumulation alone; an invalid
      one gives '0' and abandons the data portion, asking the caller to
      restart at bit 0. */
  lemma HalfBitClassified(s: State, t: real)
    ensures TeMax < t < Bit0Min ==> !ValidHalfBit(t)
    ensures var r := LogicalBit(s, t);
      && (r.halted <==> ValidHalfBit(t) && s.bitCnt != 65 && s.cursor >= |s.edges|)
      && (ValidHalfBit(t) ==>
            (!r.halted ==> r.bit == BitOf(t)) && r.st.blockInit
            && r.st.headerCompleted == s.headerCompleted && r.st.bitCnt == s.bitCnt
            && r.st.bitString == s.bitString && r.st.keyLoq == s.keyLoq)
      && (!ValidHalfBit(t) ==>
            !r.halted && r.bit == '0' && !r.st.headerCompleted && !r.st.blockInit
            && r.st.bitCnt == -1 && r.st.bitString == "" && r.st.cursor == s.cursor
            && r.st.keyLoq == s.keyLoq)
  {
  }

  /** An invalid half-bit in the data portion sends the machine back to the
      preamble search with the bit counter at 0. At bits 0-59 the '0' that
      `Decode_LogicalBit` returns is prepended after the accumulation was
      cleared, so `bitString` is "0", not empty. At bits 60-63 no field is
      written, but at bit 64 "Battery High" and at bit 65 "No" still are. */
  lemma InvalidBitAbandons(s: State, t: real)
    requires Inv(s) && s.headerCompleted && !ValidHalfBit(t)
    ensures var r := Body(s, t);
      && !r.halted && !r.st.headerCompleted && !r.st.blockInit && r.st.bitCnt == 0
      && r.st.cursor == s.cursor
      && r.st.bitString == (if s.bitCnt <= 59 then "0" else "")
      && r.st.keyLoq == (if s.bitCnt == 64 then s.keyLoq[VLow := "Battery High"]
                         else if s.bitCnt == 65 then s.keyLoq[Rpt := "No"]
                         else s.keyLoq)
  {
    HalfBitClassified(s, t);
  }

  // ----- routing of valid bits -----

  /** A valid bit of a multi-bit field is prepended to `bitString`; at bit 31
      the accumulated string becomes the Encrypted field, at bit 59 the
      Serial-Number field, and the accumulation is cleared. Either way the
      bit consumes the edge that ends it and the counter advances by one. */
  lemma FieldBitRouted(s: State, t: real)
    requires Inv(s) && s.headerCompleted && s.bitCnt <= 59 && ValidHalfBit(t)
    requires s.cursor < |s.edges|
    ensures IsBinary([BitOf(t)] + s.bitString)
    ensures var r := Body(s, t); var acc := [BitOf(t)] + s.bitString;
      && !r.halted && r.st.headerCompleted && r.st.bitCnt == s.bitCnt + 1
      && r.st.cursor == s.cursor + 1
      && (s.bitCnt != 31 && s.bitCnt != 59 ==> r.st.bitString == acc && r.st.keyLoq == s.keyLoq)
      && (s.bitCnt == 31 ==> r.st.bitString == "" && r.st.keyLoq == s.keyLoq[Encrypted := Bin2Hex(acc)])
      && (s.bitCnt == 59 ==> r.st.bitString == "" && r.st.keyLoq == s.keyLoq[SerialNumber := Bin2Hex(acc)])
  {
    HalfBitClassified(s, t);
  }

  /** Bits 60, 61, 62 and 63 are the button code S3, S0, S1 and S2 in that
      order, each stored as the one-character string of the bit. */
  lemma ButtonBitRouted(s: State, t: real)
    requires Inv(s) && s.headerCompleted && 60 <= s.bitCnt <= 63 && ValidHalfBit(t)
    requires s.cursor < |s.edges|
    ensures var r := Body(s, t); var key := [S3, S0, S1, S2][s.bitCnt - 60];
      && !r.halted && r.st.headerCompleted && r.st.bitCnt == s.bitCnt + 1
      && r.st.cursor == s.cursor + 1
      && r.st.keyLoq == s.keyLoq[key := [BitOf(t)]]
      && r.st.bitString == (if s.bitCnt == 63 then "" else s.bitString)
  {
    HalfBitClassified(s, t);
  }

  /** Bit 64 is the battery flag ('0' high, '1' low); bit 65 the repeat flag
      ('0' no, '1' yes), which needs no further edge and ends the code word:
      the counter wraps to 0 and the machine looks for a preamble again. */
  lemma FlagBitRouted(s: State, t: real)
    requires Inv(s) && s.headerCompleted && 64 <= s.bitCnt && ValidHalfBit(t)
    requires s.bitCnt == 64 ==> s.cursor < |s.edges|
    ensures var r := Body(s, t);
      && !r.halted && r.st.bitString == ""
      && (s.bitCnt == 64 ==>
            r.st.headerCompleted && r.st.bitCnt == 65 && r.st.cursor == s.cursor + 1
            && r.st.keyLoq == s.keyLoq[VLow := BatteryText(BitOf(t))])
      && (s.bitCnt == 65 ==>
            !r.st.headerCompleted && r.st.bitCnt == 0 && r.st.cursor == s.cursor
            && r.st.keyLoq == s.keyLoq[Rpt := RepeatText(BitOf(t))])
  {
    HalfBitClassified(s, t);
  }

  // ----- edges consumed per bit -----

  /** In the data portion a valid bit 0-64 takes two edges: the one whose
      distance to the previous edge is classified and the one that ends the
      bit, which becomes the previous edge of the next bit. */
  lemma EdgesPerBit(s: State, samplerate: nat)
    requires Inv(s) && s.headerCompleted && samplerate > 0 && s.cursor + 1 < |s.edges|
    requires s.bitCnt < 65 && ValidHalfBit(Duration(s.edges[s.cursor], s.prevN, samplerate))
    ensures var t := Duration(s.edges[s.cursor], s.prevN, samplerate);
      var r := EdgeStep(s, samplerate);
      && !r.halted
      && r.st.cursor == s.cursor + 2 && r.st.prevN == s.edges[s.cursor + 1]
      && Annotation(s.prevN, s.edges[s.cursor + 1], LogicalBitAnn, "Bit " + [BitOf(t)]) in r.st.anns
  {
    hide DataPortion, Preamble;
    var e := s.edges[s.cursor];
    var s1 := Wait(s).st.(n := e);
    var t := Duration(e, s.prevN, samplerate);
    var b := LogicalBit(s1, t);
    HalfBitClassified(s1, t);
    var a := Annotation(s.prevN, b.st.n, LogicalBitAnn, "Bit " + [BitOf(t)]);
    assert b.st.anns[|b.st.anns| - 1] == a;
    DataPortionExtendsBit(s1, t);
    var d := DataPortion(s1, t);
    assert d.st.anns[|b.st.anns| - 1] == a;
  }

  /** Whatever field a valid bit 0-64 is routed to, the routing keeps the
      edge the bit consumed and the annotation the bit emitted. */
  lemma DataPortionExtendsBit(s: State, t: real)
    requires Inv(s) && s.headerCompleted && s.bitCnt < 65 && ValidHalfBit(t)
    requires s.cursor < |s.edges|
    ensures var b := LogicalBit(s, t); var r := DataPortion(s, t);
      && !b.halted && !r.halted
      && r.st.cursor == b.st.cursor && r.st.samplenum == b.st.samplenum
      && 0 < |b.st.anns| <= |r.st.anns|
      && r.st.anns[|b.st.anns| - 1] == b.st.anns[|b.st.anns| - 1]
  {
    if s.bitCnt <= 59 {
      FieldExtendsBit(s, t);
    } else if s.bitCnt <= 63 {
      ButtonExtendsBit(s, t);
    } else {
      BatteryExtendsBit(s, t);
    }
  }

  lemma FieldExtendsBit(s: State, t: real)
    requires Inv(s) && s.headerCompleted && s.bitCnt <= 59 && ValidHalfBit(t)
    requires s.cursor < |s.edges|
    ensures var b := LogicalBit(s, t); var r := DataPortion(s, t);
      && !b.halted && !r.halted
      && r.st.cursor == b.st.cursor && r.st.samplenum == b.st.samplenum
      && 0 < |b.st.anns| <= |r.st.anns|
      && r.st.anns[|b.st.anns| - 1] == b.st.anns[|b.st.anns| - 1]
  {
    hide ButtonBit, BatteryBit, RepeatBit;
    HalfBitClassified(s, t);
    assert s.bitCnt <= 31 || 32 <= s.bitCnt;
  }

  lemma ButtonExtendsBit(s: State, t: real)
    requires Inv(s) && s.headerCompleted && 60 <= s.bitCnt <= 63 && ValidHalfBit(t)
    requires s.cursor < |s.edges|
    ensures var b := LogicalBit(s, t); var r := DataPortion(s, t);
      && !b.halted && !r.halted
      && r.st.cursor == b.st.cursor && r.st.samplenum == b.st.samplenum
      && 0 < |b.st.anns| <= |r.st.anns|
      && r.st.anns[|b.st.anns| - 1] == b.st.anns[|b.st.anns| - 1]
  {
    hide FieldBit, BatteryBit, RepeatBit;
    HalfBitClassified(s, t);
  }

  lemma BatteryExtendsBit(s: State, t: real)
    requires Inv(s) && s.headerCompleted && s.bitCnt == 64 && ValidHalfBit(t)
    requires s.cursor < |s.edges|
    ensures var b := LogicalBit(s, t); var r := DataPortion(s, t);
      && !b.halted && !r.halted
      && r.st.cursor == b.st.cursor && r.st.samplenum == b.st.samplenum
      && 0 < |b.st.anns| <= |r.st.anns|
      && r.st.anns[|b.st.anns| - 1] == b.st.anns[|b.st.anns| - 1]
  {
    hide FieldBit, ButtonBit, RepeatBit;
    HalfBitClassified(s, t);
  }

  /** Bit 65 takes a single edge, and its annotation ends `LastBitPad`
      samples after it. */
  lemma LastBitPadded(s: State, samplerate: nat)
    requires Inv(s) && s.headerCompleted && samplerate > 0 && s.cursor < |s.edges|
    requires s.bitCnt == 65 && ValidHalfBit(Duration(s.edges[s.cursor], s.prevN, samplerate))
    ensures var e := s.edges[s.cursor];
      var t := Duration(e, s.prevN, samplerate);
      var r := EdgeStep(s, samplerate);
      && !r.halted && r.st.cursor == s.cursor + 1 && r.st.prevN == e
      && Annotation(s.prevN, e + LastBitPad, LogicalBitAnn, "Bit " + [BitOf(t)]) in r.st.anns
  {
    var e := s.edges[s.cursor];
    var s1 := Wait(s).st.(n := e);
    var t := Duration(e, s.prevN, samplerate);
    var b := LogicalBit(s1, t);
    HalfBitClassified(s1, t);
    var a := Annotation(s.prevN, b.st.n, LogicalBitAnn, "Bit " + [BitOf(t)]);
    assert b.st.anns[|b.st.anns| - 1] == a;
    assert a in b.st.anns;
  }

  /** An invalid bit takes a single edge, which becomes the previous edge. */
  lemma InvalidBitOneEdge(s: State, samplerate: nat)
    requires Inv(s) && s.headerCompleted && samplerate > 0 && s.cursor < |s.edges|
    requires !ValidHalfBit(Duration(s.edges[s.cursor], s.prevN, samplerate))
    ensures var r := EdgeStep(s, samplerate);
      !r.halted && r.st.cursor == s.cursor + 1 && r.st.prevN == s.edges[s.cursor]
  {
    var e := s.edges[s.cursor];
    HalfBitClassified(Wait(s).st.(n := e), Duration(e, s.prevN, samplerate));
  }

  // ----- stale fields -----

  /** A code-word field, once written, is never cleared by the loop body:
      every write stores a non-empty value, and the preamble detector and an
      abandoned code word leave the other fields as they were. */
  ghost predicate FieldsKept(before: map<string, string>, after: map<string, string>) {
    forall k :: k in before && before[k] != "" ==> k in after && after[k] != ""
  }

  lemma WriteKeepsFields(m: map<string, string>, key: string, v: string)
    requires v != ""
    ensures FieldsKept(m, m[key := v])
  {
  }

  /** A valid bit whose closing edge never comes changes no field. */
  lemma HaltedBitKeepsFields(s: State, t: real)
    requires Inv(s) && s.headerCompleted && ValidHalfBit(t)
    requires s.bitCnt != 65 && s.cursor >= |s.edges|
    ensures Body(s, t).st.keyLoq == s.keyLoq
  {
    HalfBitClassified(s, t);
  }

  lemma BodyKeepsFields(s: State, t: real)
    requires Inv(s)
    ensures FieldsKept(s.keyLoq, Body(s, t).st.keyLoq)
  {
    var m := s.keyLoq;
    if !s.headerCompleted {
      assert Body(s, t).st.keyLoq == m;
    } else if !ValidHalfBit(t) {
      InvalidBitAbandons(s, t);
      WriteKeepsFields(m, VLow, "Battery High");
      WriteKeepsFields(m, Rpt, "No");
    } else if s.bitCnt != 65 && s.cursor >= |s.edges| {
      HaltedBitKeepsFields(s, t);
    } else if s.bitCnt <= 59 {
      FieldBitRouted(s, t);
      var hex := Bin2Hex([BitOf(t)] + s.bitString);
      WriteKeepsFields(m, Encrypted, hex);
      WriteKeepsFields(m, SerialNumber, hex);
    } else if s.bitCnt <= 63 {
      ButtonBitRouted(s, t);
      WriteKeepsFields(m, [S3, S0, S1, S2][s.bitCnt - 60], [BitOf(t)]);
    } else {
      FlagBitRouted(s, t);
      WriteKeepsFields(m, VLow, BatteryText(BitOf(t)));
      WriteKeepsFields(m, Rpt, RepeatText(BitOf(t)));
    }
  }

  /** Over a whole decode run no field that held a value is emptied again:
      only `reset` clears the code word, so a code word abandoned part-way
      leaves the previous one's later fields in place. */
  lemma {:induction false} RunKeepsFields(s: State, samplerate: nat)
    requires Inv(s) && samplerate > 0
    ensures FieldsKept(s.keyLoq, Run(s, samplerate).keyLoq)
    decreases |s.edges| - s.cursor
  {
    if s.cursor < |s.edges| {
      var f := Wait(s);
      var s1 := f.st.(n := f.st.samplenum);
      BodyKeepsFields(s1, Duration(s1.n, s1.prevN, samplerate));
      var o := EdgeStep(s, samplerate);
      if !o.halted {
        RunKeepsFields(o.st, samplerate);
      }
    }
  }
}
