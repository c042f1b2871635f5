/** The KeeLoq code-word decoder as an object whose methods update its fields
    in place. The methods follow the decoder class's own methods, split the
    way `Machine` splits them: `CountPulse` is the pulse branch of the
    preamble, `CloseField` and the `Decode*Bit` methods are the bit ranges of
    the data portion, and `Step` and `Advance` are one turn of the main loop.
    The sigrok-side `start` and `metadata` have no method here. Each method
    is proved to have exactly the effect that the matching function in
    `Machine` gives, so what `Properties` proves about those functions holds
    of every run of these methods. */
module KeeLoq {
  import opened Numerals
  import opened Timing
  import M = Machine

  class Decoder {
    // acquisition side: the edges still to be delivered and the last one delivered
    var edges: seq<int>
    var cursor: nat
    var samplenum: int

    // preamble and header
    var teCnt: nat
    var blockInit: bool
    var ssBlock: int
    var headerCompleted: bool

    // edges
    var n: int
    var prevN: int

    // data portion
    var bitCnt: int
    var bitString: string
    var keyLoq: map<string, string>

    // annotations handed to the sink
    var anns: seq<M.Annotation>

    /** The fields as one value. */
    ghost function State(): M.State
      reads this
    {
      M.State(edges, cursor, samplenum, teCnt, blockInit, ssBlock, headerCompleted,
              n, prevN, bitCnt, bitString, keyLoq, anns)
    }

    constructor (edges: seq<int>)
      ensures State() == M.Reset(edges)
      ensures M.Inv(State())
    {
      this.edges := edges;
      cursor := 0;
      samplenum := 0;
      new;
      Reset();
    }

    /** `reset`: all counters and flags zero, all code-word fields empty. */
    method Reset()
      modifies this
      ensures State() == M.Reset(old(edges))
    {
      cursor, samplenum := 0, 0;
      teCnt := 0;
      blockInit := false;
      ssBlock := 0;
      headerCompleted := false;
      n, prevN := 0, 0;
      bitCnt := 0;
      bitString := "";
      keyLoq := M.EmptyKeyLoq();
      anns := [];
      assert State() == M.State(edges, 0, 0, 0, false, 0, false, 0, 0, 0, "", M.EmptyKeyLoq(), []);
    }

    /** `put`: one annotation to the sink. */
    method Put(start: int, end: int, cls: M.AnnClass, text: string)
      modifies this
      ensures State() == M.Emit(old(State()), start, end, cls, text)
    {
      anns := anns + [M.Annotation(start, end, cls, text)];
    }

    method StartBlock()
      modifies this
      ensures State() == M.StartBlock(old(State()))
    {
      if !blockInit {
        blockInit := true;
        ssBlock := prevN;
      }
    }

    method ResetDPCnts()
      modifies this
      ensures State() == M.ResetDPCnts(old(State()))
    {
      blockInit := false;
      bitString := "";
    }

    /** `Decode_Preable(t)`. */
    method DecodePreamble(t: real)
      modifies this
      ensures State() == M.Preamble(old(State()), t)
    {
      if InShortTe(t) || InStdTe(t) {
        CountPulse(t);
      } else if InHeader(t) && (teCnt == PreambleCountStd + 1 || teCnt == PreambleCountShort + 1) {
        Put(prevN, n, M.CodeWord, "Header");
        teCnt := 0;
        blockInit := false;
        headerCompleted := true;
      } else {
        teCnt := 0;
        blockInit := false;
      }
    }

    /** A pulse in one of the two TE windows. */
    method CountPulse(t: real)
      modifies this
      ensures State() == M.Pulse(old(State()), t)
    {
      var short := InShortTe(t);
      var std := InStdTe(t);
      if short && teCnt < PreambleCountShort {
        Put(prevN, samplenum, M.TE, Decimal(teCnt));
        StartBlock();
      } else if std && teCnt < PreambleCountStd {
        Put(prevN, samplenum, M.TE, Decimal(teCnt));
        StartBlock();
      }
      if (short && teCnt == PreambleCountShort) || (std && teCnt == PreambleCountStd) {
        Put(ssBlock, n, M.CodeWord, "Preamble");
        Put(prevN, samplenum, M.TE, Decimal(teCnt));
      }
    }

    /** `wait`: take the next edge, if acquisition has one. */
    method Wait() returns (ok: bool)
      modifies this
      ensures M.Fetch(State(), ok) == M.Wait(old(State()))
    {
      if cursor < |edges| {
        samplenum := edges[cursor];
        cursor := cursor + 1;
        ok := true;
      } else {
        ok := false;
      }
    }

    /** `Decode_LogicalBit(t)`; `halted` when the edge ending the bit never
        came and the session is over. */
    method DecodeLogicalBit(t: real) returns (bit: char, halted: bool)
      modifies this
      ensures M.BitOutcome(State(), bit, halted) == M.LogicalBit(old(State()), t)
    {
      if M.ValidHalfBit(t) {
        StartBlock();
        if bitCnt == 65 {
          n := samplenum + LastBitPad;
        } else {
          var ok := Wait();
          if !ok {
            return '0', true;
          }
          n := samplenum;
        }
        bit := M.BitOf(t);
        Put(prevN, n, M.LogicalBitAnn, "Bit " + [bit]);
        halted := false;
      } else {
        Put(prevN, n, M.LogicalBitAnn, ">>> Invalid Bit <<< ");
        ResetDPCnts();
        headerCompleted := false;
        bitCnt := -1;
        bit, halted := '0', false;
      }
    }

    /** The end of a multi-bit field: store and annotate its hex rendering. */
    method CloseField(title: string, key: string, cls: M.AnnClass)
      requires IsBinary(bitString) && |bitString| > 0
      modifies this
      ensures State() == M.CloseField(old(State()), title, key, cls)
    {
      Put(ssBlock, n, M.CodeWord, title);
      keyLoq := keyLoq[key := Bin2Hex(bitString)];
      Put(ssBlock, n, cls, keyLoq[key]);
      ResetDPCnts();
    }

    /** Bits 0-31 (`last` = 31) and 32-59 (`last` = 59): prepend the bit and
        close the field at its last bit. */
    method DecodeFieldBit(t: real, last: int, title: string, key: string, cls: M.AnnClass)
      returns (halted: bool)
      requires M.Inv(State()) && headerCompleted && bitCnt <= last <= 59
      modifies this
      ensures M.Outcome(State(), halted) == M.FieldBit(old(State()), t, last, title, key, cls)
    {
      var bit;
      bit, halted := DecodeLogicalBit(t);
      if halted {
        return;
      }
      bitString := [bit] + bitString;
      if bitCnt == last {
        CloseField(title, key, cls);
      }
    }

    /** Bits 60-63: S3, S0, S1, S2. */
    method DecodeButtonBit(t: real) returns (halted: bool)
      requires M.Inv(State()) && headerCompleted && 60 <= bitCnt <= 63
      modifies this
      ensures M.Outcome(State(), halted) == M.ButtonBit(old(State()), t)
    {
      var bit;
      bit, halted := DecodeLogicalBit(t);
      if halted {
        return;
      }
      var v := [bit];
      if bitCnt == 60 {
        keyLoq := keyLoq[M.S3 := v];
        Put(prevN, n, M.FixedData, M.S3 + " = " + v);
      } else if bitCnt == 61 {
        keyLoq := keyLoq[M.S0 := v];
        Put(prevN, n, M.FixedData, M.S0 + " = " + v);
      } else if bitCnt == 62 {
        keyLoq := keyLoq[M.S1 := v];
        Put(prevN, n, M.FixedData, M.S1 + " = " + v);
      } else if bitCnt == 63 {
        keyLoq := keyLoq[M.S2 := v];
        Put(ssBlock, n, M.CodeWord, "Button Code");
        Put(prevN, n, M.FixedData, M.S2 + " = " + v);
        ResetDPCnts();
      }
    }

    /** Bit 64: V-Low. */
    method DecodeBatteryBit(t: real) returns (halted: bool)
      requires M.Inv(State()) && headerCompleted && bitCnt == 64
      modifies this
      ensures M.Outcome(State(), halted) == M.BatteryBit(old(State()), t)
    {
      var bit;
      bit, halted := DecodeLogicalBit(t);
      if halted {
        return;
      }
      Put(ssBlock, n, M.CodeWord, "V-Low");
      keyLoq := keyLoq[M.VLow := M.BatteryText(bit)];
      Put(prevN, n, M.FixedData, keyLoq[M.VLow]);
      ResetDPCnts();
    }

    /** Bit 65: RPT, then back to preamble detection. */
    method DecodeRepeatBit(t: real) returns (halted: bool)
      requires M.Inv(State()) && headerCompleted && bitCnt == 65
      modifies this
      ensures M.Outcome(State(), halted) == M.RepeatBit(old(State()), t)
    {
      var bit;
      bit, halted := DecodeLogicalBit(t);
      Put(ssBlock, n, M.CodeWord, "RPT");
      keyLoq := keyLoq[M.Rpt := M.RepeatText(bit)];
      Put(prevN, n, M.FixedData, keyLoq[M.Rpt]);
      ResetDPCnts();
      headerCompleted := false;
      bitCnt := -1;
    }

    /** `Decode_DataPortion(t)`. */
    method DecodeDataPortion(t: real) returns (halted: bool)
      requires M.Inv(State()) && headerCompleted
      modifies this
      ensures M.Outcome(State(), halted) == M.DataPortion(old(State()), t)
    {
      if bitCnt <= 31 {
        halted := DecodeFieldBit(t, 31, "Encrypted Portion", M.Encrypted, M.EncrypData);
      } else if bitCnt <= 59 {
        halted := DecodeFieldBit(t, 59, "Serial Number", M.SerialNumber, M.FixedData);
      } else if bitCnt <= 63 {
        halted := DecodeButtonBit(t);
      } else if bitCnt == 64 {
        halted := DecodeBatteryBit(t);
      } else {
        halted := DecodeRepeatBit(t);
      }
    }

    /** One turn of the decode loop: wait for the next edge, measure it and
        dispatch on the phase. */
    method Step(samplerate: nat) returns (halted: bool)
      requires samplerate > 0 && M.Inv(State()) && cursor < |edges|
      modifies this
      ensures M.Outcome(State(), halted) == M.EdgeStep(old(State()), samplerate)
    {
      var _ := Wait();
      n := samplenum;
      var t := Duration(n, prevN, samplerate);
      halted := Advance(t);
    }

    /** The rest of the loop body once the edge is in `n` and measured. */
    method Advance(t: real) returns (halted: bool)
      requires M.Inv(State())
      modifies this
      ensures M.Outcome(State(), halted) == M.Body(old(State()), t)
    {
      if !headerCompleted {
        teCnt := teCnt + 1;
        DecodePreamble(t);
        halted := false;
      } else {
        halted := DecodeDataPortion(t);
        if halted {
          return;
        }
        bitCnt := bitCnt + 1;
      }
      prevN := samplenum;
    }

    /** `decode`: anchor on the first edge, then for every further edge
        measure its distance to the previous one and feed it to the preamble
        detector or the data decoder, until acquisition ends. */
    method Decode(samplerate: nat)
      requires samplerate > 0 && M.Inv(State())
      modifies this
      ensures State() == M.Decode(old(State()), samplerate)
    {
      var ok := Wait();
      if !ok {
        return;
      }
      prevN := samplenum;
      ghost var start := State();
      while cursor < |edges|
        invariant M.Inv(State())
        invariant M.Run(State(), samplerate) == M.Run(start, samplerate)
        decreases |edges| - cursor
      {
        var halted := Step(samplerate);
        if halted {
          return;
        }
      }
    }
  }
}
