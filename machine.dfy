/** The decoder's state as a value and the effect of each of its operations on
    that value. The class `KeeLoq.Decoder` performs the same operations by
    updating its fields, and each of its methods is proved to have exactly
    the effect given here; the lemmas in `Properties` are stated over these
    functions. */
module Machine {
  import opened Numerals
  import opened Timing

  /** The five annotation classes: TE, logical bit, code word, encrypted data
      and fixed data. */
  datatype AnnClass = TE | LogicalBitAnn | CodeWord | EncrypData | FixedData

  /** One call of the annotation sink: a labelled span of samples. */
  datatype Annotation = Annotation(start: int, end: int, cls: AnnClass, text: string)

  /** Everything the decoder keeps between edges.
      - `edges`, `cursor`, `samplenum`: the acquisition side. `edges` holds the
        sample numbers of the edges in order, `cursor` how many of them have
        been waited for, `samplenum` the last one returned.
      - `teCnt`: pulses counted in the current preamble attempt.
      - `blockInit`, `ssBlock`: whether the current block has its start
        sample, and that sample.
      - `headerCompleted`: preamble and header seen; edges are data bits.
      - `n`, `prevN`: current and previous edge.
      - `bitCnt`: position of the next data bit, 0 to 65 (-1 transiently).
      - `bitString`: the bits of the current multi-bit field, last received first.
      - `keyLoq`: the code-word fields by name.
      - `anns`: the annotations emitted so far. */
  datatype State = State(
    edges: seq<int>, cursor: nat, samplenum: int,
    teCnt: nat, blockInit: bool, ssBlock: int, headerCompleted: bool,
    n: int, prevN: int, bitCnt: int, bitString: string,
    keyLoq: map<string, string>, anns: seq<Annotation>)

  const Encrypted := "Encrypted"
  const SerialNumber := "Serial-Number"
  const S3 := "S3"
  const S0 := "S0"
  const S1 := "S1"
  const S2 := "S2"
  const VLow := "V-Low"
  const Rpt := "RPT"

  /** The field names of a code word, each with an empty value. */
  function EmptyKeyLoq(): map<string, string> {
    map[Encrypted := "", SerialNumber := "", S3 := "", S0 := "", S1 := "", S2 := "",
        VLow := "", Rpt := ""]
  }

  /** What holds between any two edges. */
  ghost predicate Inv(s: State) {
    && s.cursor <= |s.edges|
    && 0 <= s.bitCnt <= 65
    && (!s.headerCompleted ==> s.bitCnt == 0)
    && IsBinary(s.bitString)
  }

  /** `reset`: every counter and flag at zero, all fields empty, no edge
      waited for yet. */
  function Reset(edges: seq<int>): (r: State)
    ensures Inv(r) && r.edges == edges && r.cursor == 0 && r.anns == []
    ensures r.teCnt == 0 && !r.blockInit && !r.headerCompleted && r.bitCnt == 0 && r.bitString == ""
    ensures r.keyLoq.Keys == {Encrypted, SerialNumber, S3, S0, S1, S2, VLow, Rpt}
    ensures forall k :: k in r.keyLoq ==> r.keyLoq[k] == ""
  {
    State(edges, 0, 0, 0, false, 0, false, 0, 0, 0, "", EmptyKeyLoq(), [])
  }

  function Emit(s: State, start: int, end: int, cls: AnnClass, text: string): (r: State)
    ensures r.anns == s.anns + [Annotation(start, end, cls, text)]
    ensures r.(anns := s.anns) == s
  {
    s.(anns := s.anns + [Annotation(start, end, cls, text)])
  }

  /** `Start_Block`: the first call of a block records the previous edge as
      its start. */
  function StartBlock(s: State): (r: State)
    ensures r.blockInit && r.ssBlock == (if s.blockInit then s.ssBlock else s.prevN)
    ensures r.(blockInit := s.blockInit, ssBlock := s.ssBlock) == s
  {
    if !s.blockInit then s.(blockInit := true, ssBlock := s.prevN) else s
  }

  /** `Reset_DP_Cnts`. */
  function ResetDPCnts(s: State): (r: State)
    ensures !r.blockInit && r.bitString == ""
    ensures r.(blockInit := s.blockInit, bitString := s.bitString) == s
  {
    s.(blockInit := false, bitString := "")
  }

  /** `Decode_Preable(t)`, called after the caller has already counted this
      edge in `teCnt`. */
  function Preamble(s: State, t: real): (r: State)
    ensures r.edges == s.edges && r.cursor == s.cursor && r.samplenum == s.samplenum
    ensures r.n == s.n && r.prevN == s.prevN
    ensures r.bitCnt == s.bitCnt && r.bitString == s.bitString && r.keyLoq == s.keyLoq
  {
    if InShortTe(t) || InStdTe(t) then
      Pulse(s, t)
    else if InHeader(t) && (s.teCnt == PreambleCountStd + 1 || s.teCnt == PreambleCountShort + 1) then
      Emit(s, s.prevN, s.n, CodeWord, "Header").(teCnt := 0, blockInit := false, headerCompleted := true)
    else
      s.(teCnt := 0, blockInit := false)
  }

  /** A preamble pulse (a duration in the short or the standard TE window):
      annotated with its count while the count is below the variant's
      length, and closing the preamble when it equals it. */
  function Pulse(s: State, t: real): (r: State)
    ensures r.edges == s.edges && r.cursor == s.cursor && r.samplenum == s.samplenum
    ensures r.n == s.n && r.prevN == s.prevN
    ensures r.teCnt == s.teCnt && r.headerCompleted == s.headerCompleted
    ensures r.bitCnt == s.bitCnt && r.bitString == s.bitString && r.keyLoq == s.keyLoq
  {
    var short := InShortTe(t);
    var std := InStdTe(t);
    var s1 :=
      if short && s.teCnt < PreambleCountShort then
        StartBlock(Emit(s, s.prevN, s.samplenum, TE, Decimal(s.teCnt)))
      else if std && s.teCnt < PreambleCountStd then
        StartBlock(Emit(s, s.prevN, s.samplenum, TE, Decimal(s.teCnt)))
      else s;
    if (short && s1.teCnt == PreambleCountShort) || (std && s1.teCnt == PreambleCountStd) then
      Emit(Emit(s1, s1.ssBlock, s1.n, CodeWord, "Preamble"), s1.prevN, s1.samplenum, TE, Decimal(s1.teCnt))
    else s1
  }

  datatype Fetch = Fetch(st: State, ok: bool)

  /** `wait`: the next edge becomes `samplenum`; when there is none the
      acquisition has ended (`ok` is false) and nothing changes. */
  function Wait(s: State): (r: Fetch)
    ensures r.st.edges == s.edges
    ensures r.ok <==> s.cursor < |s.edges|
    ensures r.ok ==> r.st.samplenum == s.edges[s.cursor] && r.st.cursor == s.cursor + 1
                     && r.st.(samplenum := s.samplenum, cursor := s.cursor) == s
    ensures !r.ok ==> r.st == s
  {
    if s.cursor < |s.edges| then Fetch(s.(samplenum := s.edges[s.cursor], cursor := s.cursor + 1), true)
    else Fetch(s, false)
  }

  /** A half-bit duration stands for a bit when it lies in the logical-1
      window (the standard TE, 280-580 us) or the logical-0 window
      (700-1000 us). */
  predicate ValidHalfBit(t: real)
    ensures ValidHalfBit(t) ==> TeMin <= t <= Bit0Max
    ensures TeMax < t < Bit0Min ==> !ValidHalfBit(t)
  {
    InStdTe(t) || InBit0(t)
  }

  /** The bit a valid half-bit stands for: '1' in the standard TE window,
      '0' otherwise. */
  function BitOf(t: real): (c: char)
    ensures IsBit(c)
    ensures InStdTe(t) ==> c == '1'
    ensures InBit0(t) ==> c == '0'
  {
    if InStdTe(t) then '1' else '0'
  }

  /** Result of one logical-bit decode. `halted` means the edge that ends the
      bit never came: acquisition ended, and with it the decode session. */
  datatype BitOutcome = BitOutcome(st: State, bit: char, halted: bool)

  /** `Decode_LogicalBit(t)`. A half-bit in the logical-1 window gives '1', one
      in the logical-0 window gives '0'; the bit then takes the next edge as
      its end, except bit 65, which ends `LastBitPad` samples after the current
      one. Any other duration marks the bit invalid: the data portion is
      abandoned and '0' is returned. */
  function LogicalBit(s: State, t: real): (r: BitOutcome)
    ensures IsBit(r.bit)
    ensures r.st.edges == s.edges && s.cursor <= r.st.cursor
    ensures s.cursor <= |s.edges| ==> r.st.cursor <= |s.edges|
    ensures r.st.keyLoq == s.keyLoq
    ensures ValidHalfBit(t) ==>
              r.st.bitCnt == s.bitCnt && r.st.headerCompleted == s.headerCompleted
              && r.st.bitString == s.bitString
    ensures !ValidHalfBit(t) ==>
              !r.halted && r.st.bitCnt == -1 && !r.st.headerCompleted && r.st.bitString == ""
  {
    if ValidHalfBit(t) then
      var s1 := StartBlock(s);
      var f := Wait(s1);
      if s1.bitCnt != 65 && !f.ok then
        BitOutcome(s1, '0', true)
      else
        var s2 := if s1.bitCnt == 65 then s1.(n := s1.samplenum + LastBitPad)
                  else f.st.(n := f.st.samplenum);
        var bit := BitOf(t);
        BitOutcome(Emit(s2, s2.prevN, s2.n, LogicalBitAnn, "Bit " + [bit]), bit, false)
    else
      var s1 := Emit(s, s.prevN, s.n, LogicalBitAnn, ">>> Invalid Bit <<< ");
      BitOutcome(ResetDPCnts(s1).(headerCompleted := false, bitCnt := -1), '0', false)
  }

  /** Closing a multi-bit field: its hex rendering is stored under `key` and
      annotated, and the field's accumulation starts over. */
  function CloseField(s: State, title: string, key: string, cls: AnnClass): (r: State)
    requires IsBinary(s.bitString) && |s.bitString| > 0
    ensures r.edges == s.edges && r.cursor == s.cursor && r.bitCnt == s.bitCnt
    ensures r.headerCompleted == s.headerCompleted && r.bitString == ""
    ensures r.keyLoq == s.keyLoq[key := Bin2Hex(s.bitString)]
  {
    var hex := Bin2Hex(s.bitString);
    var s1 := Emit(s, s.ssBlock, s.n, CodeWord, title).(keyLoq := s.keyLoq[key := hex]);
    ResetDPCnts(Emit(s1, s.ssBlock, s.n, cls, hex))
  }

  datatype Outcome = Outcome(st: State, halted: bool)

  /** The bits of a multi-bit field (encrypted portion, bits 0-31, closed at
      `last` = 31; serial number, bits 32-59, closed at `last` = 59): each
      bit is prepended to `bitString`, and the field is closed at its last
      bit. */
  function FieldBit(s: State, t: real, last: int, title: string, key: string, cls: AnnClass): (r: Outcome)
    requires Inv(s) && s.headerCompleted && s.bitCnt <= last <= 59
    ensures r.st.edges == s.edges && s.cursor <= r.st.cursor <= |s.edges|
    ensures IsBinary(r.st.bitString)
    ensures r.halted ==> r.st.bitCnt == s.bitCnt && r.st.headerCompleted
    ensures !r.halted ==>
              (r.st.bitCnt == -1 && !r.st.headerCompleted)
              || (r.st.bitCnt == s.bitCnt && r.st.headerCompleted)
  {
    var b := LogicalBit(s, t);
    if b.halted then Outcome(b.st, true)
    else
      var s1 := b.st.(bitString := [b.bit] + b.st.bitString);
      if s1.bitCnt == last then Outcome(CloseField(s1, title, key, cls), false)
      else Outcome(s1, false)
  }

  /** Bits 60-63: the button code S3, S0, S1, S2, one field per bit. */
  function ButtonBit(s: State, t: real): (r: Outcome)
    requires Inv(s) && s.headerCompleted && 60 <= s.bitCnt <= 63
    ensures r.st.edges == s.edges && s.cursor <= r.st.cursor <= |s.edges|
    ensures IsBinary(r.st.bitString)
    ensures r.halted ==> r.st.bitCnt == s.bitCnt && r.st.headerCompleted
    ensures !r.halted ==>
              (r.st.bitCnt == -1 && !r.st.headerCompleted)
              || (r.st.bitCnt == s.bitCnt && r.st.headerCompleted)
  {
    var b := LogicalBit(s, t);
    if b.halted then Outcome(b.st, true)
    else
      var s1 := b.st;
      var v := [b.bit];
      if s1.bitCnt == 60 then Outcome(SetButton(s1, S3, v), false)
      else if s1.bitCnt == 61 then Outcome(SetButton(s1, S0, v), false)
      else if s1.bitCnt == 62 then Outcome(SetButton(s1, S1, v), false)
      else if s1.bitCnt == 63 then Outcome(LastButton(s1, v), false)
      else
        Outcome(s1, false)
  }

  /** One button bit stored under its name and annotated as "name = bit". */
  function SetButton(s: State, key: string, v: string): (r: State)
    ensures r.edges == s.edges && r.cursor == s.cursor && r.bitCnt == s.bitCnt
    ensures r.headerCompleted == s.headerCompleted && r.bitString == s.bitString
    ensures r.keyLoq == s.keyLoq[key := v]
  {
    Emit(s.(keyLoq := s.keyLoq[key := v]), s.prevN, s.n, FixedData, key + " = " + v)
  }

  /** Bit 63, S2: the button code is annotated as a whole, then S2 is stored
      and the block counters are cleared. */
  function LastButton(s: State, v: string): (r: State)
    ensures r.edges == s.edges && r.cursor == s.cursor && r.bitCnt == s.bitCnt
    ensures r.headerCompleted == s.headerCompleted && r.bitString == ""
    ensures r.keyLoq == s.keyLoq[S2 := v]
  {
    ResetDPCnts(SetButton(Emit(s, s.ssBlock, s.n, CodeWord, "Button Code"), S2, v))
  }

  /** The text stored for the battery flag, bit 64. */
  function BatteryText(b: char): (v: string)
    ensures v == "Battery High" || v == "Battery Low"
    ensures v == "Battery High" <==> b == '0'
  {
    if b == '0' then "Battery High" else "Battery Low"
  }

  /** The text stored for the repeat flag, bit 65. */
  function RepeatText(b: char): (v: string)
    ensures v == "No" || v == "Yes"
    ensures v == "No" <==> b == '0'
  {
    if b == '0' then "No" else "Yes"
  }

  /** Bit 64: the low-battery flag. */
  function BatteryBit(s: State, t: real): (r: Outcome)
    requires Inv(s) && s.headerCompleted && s.bitCnt == 64
    ensures r.st.edges == s.edges && s.cursor <= r.st.cursor <= |s.edges|
    ensures IsBinary(r.st.bitString)
    ensures r.halted ==> r.st.bitCnt == s.bitCnt && r.st.headerCompleted
    ensures !r.halted ==>
              (r.st.bitCnt == -1 && !r.st.headerCompleted)
              || (r.st.bitCnt == s.bitCnt && r.st.headerCompleted)
  {
    var b := LogicalBit(s, t);
    if b.halted then Outcome(b.st, true)
    else
      var s1 := Emit(b.st, b.st.ssBlock, b.st.n, CodeWord, "V-Low");
      var v := BatteryText(b.bit);
      var s2 := Emit(s1.(keyLoq := s1.keyLoq[VLow := v]), s1.prevN, s1.n, FixedData, v);
      Outcome(ResetDPCnts(s2), false)
  }

  /** Bit 65: the repeat flag, after which the decoder looks for the next
      preamble. */
  function RepeatBit(s: State, t: real): (r: Outcome)
    requires Inv(s) && s.headerCompleted && s.bitCnt == 65
    ensures r.st.edges == s.edges && s.cursor <= r.st.cursor <= |s.edges|
    ensures IsBinary(r.st.bitString)
    ensures !r.halted && r.st.bitCnt == -1 && !r.st.headerCompleted
  {
    var b := LogicalBit(s, t);
    var s1 := Emit(b.st, b.st.ssBlock, b.st.n, CodeWord, "RPT");
    var v := RepeatText(b.bit);
    var s2 := Emit(s1.(keyLoq := s1.keyLoq[Rpt := v]), s1.prevN, s1.n, FixedData, v);
    Outcome(ResetDPCnts(s2).(headerCompleted := false, bitCnt := -1), false)
  }

  /** `Decode_DataPortion(t)`: decodes bit `bitCnt` and routes it to its field. */
  function DataPortion(s: State, t: real): (r: Outcome)
    requires Inv(s) && s.headerCompleted
    ensures r.st.edges == s.edges && s.cursor <= r.st.cursor <= |s.edges|
    ensures IsBinary(r.st.bitString)
    ensures r.halted ==> r.st.bitCnt == s.bitCnt && r.st.headerCompleted
    ensures !r.halted ==>
              (r.st.bitCnt == -1 && !r.st.headerCompleted)
              || (r.st.bitCnt == s.bitCnt < 65 && r.st.headerCompleted)
  {
    var k := s.bitCnt;
    if k <= 31 then FieldBit(s, t, 31, "Encrypted Portion", Encrypted, EncrypData)
    else if k <= 59 then FieldBit(s, t, 59, "Serial Number", SerialNumber, FixedData)
    else if k <= 63 then ButtonBit(s, t)
    else if k == 64 then BatteryBit(s, t)
    else RepeatBit(s, t)
  }

  /** One turn of the decode loop once the edge is in `n` and its duration
      is t: the preamble detector (counting the edge first) or the data
      decoder (advancing the bit counter after), then the current edge
      becomes the previous one. */
  function Body(s: State, t: real): (r: Outcome)
    requires Inv(s)
    ensures Inv(r.st)
    ensures r.st.edges == s.edges && s.cursor <= r.st.cursor
  {
    if !s.headerCompleted then
      var p := Preamble(s.(teCnt := s.teCnt + 1), t);
      Outcome(p.(prevN := p.samplenum), false)
    else
      var d := DataPortion(s, t);
      if d.halted then d
      else Outcome(d.st.(bitCnt := d.st.bitCnt + 1, prevN := d.st.samplenum), false)
  }

  /** Waiting for the next edge, measuring it against the previous one and
      running the loop body. */
  function EdgeStep(s: State, samplerate: nat): (r: Outcome)
    requires Inv(s) && s.cursor < |s.edges| && samplerate > 0
    ensures Inv(r.st)
    ensures r.st.edges == s.edges && s.cursor < r.st.cursor
  {
    var f := Wait(s);
    var s1 := f.st.(n := f.st.samplenum);
    Body(s1, Duration(s1.n, s1.prevN, samplerate))
  }

  /** The decode loop from state s until the edges run out. */
  function Run(s: State, samplerate: nat): (r: State)
    requires Inv(s) && samplerate > 0
    ensures Inv(r)
    decreases |s.edges| - s.cursor
  {
    if s.cursor == |s.edges| then s
    else
      var o := EdgeStep(s, samplerate);
      if o.halted then o.st else Run(o.st, samplerate)
  }

  /** `decode`: the first edge anchors the first block, then the loop. */
  function Decode(s: State, samplerate: nat): (r: State)
    requires Inv(s) && samplerate > 0
    ensures Inv(r)
  {
    var f := Wait(s);
    if !f.ok then s else Run(f.st.(prevN := f.st.samplenum), samplerate)
  }
}
