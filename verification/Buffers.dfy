/** Filling a result buffer from left to right. */
module Buffers {
  import opened MixedStrings

  /** memcpy of a slice into the buffer at `at`. */
  method MemCpy(buffer: array<Octet>, at: nat, source: seq<Octet>)
    requires at + |source| <= buffer.Length
    modifies buffer
    ensures buffer[..at + |source|] == old(buffer[..at]) + source
  {
    forall i | at <= i < at + |source| {
      buffer[i] := source[i - at];
    }
  }

  /** Fill in `numPad` pad characters at `at`. */
  method SetPadChar(buffer: array<Octet>, at: nat, numPad: nat, pad: Chr)
    requires at + |Encode(Pads(pad, numPad))| <= buffer.Length
    modifies buffer
    ensures buffer[..at + |Encode(Pads(pad, numPad))|] == old(buffer[..at]) + Encode(Pads(pad, numPad))
  {
    ghost var before := buffer[..at];
    if pad.Sbcs? {
      EncodePads(pad, numPad);
      forall i | at <= i < at + numPad {
        buffer[i] := pad.b;
      }
      RunOfBytes(pad, numPad);
    } else {
      var string_ := at;
      var i := 0;
      EncodePads(pad, numPad);
      while i < numPad
        invariant i <= numPad && string_ == at + 2 * i <= buffer.Length
        invariant buffer[..string_] == before + Encode(Pads(pad, i))
      {
        EncodePads(pad, i + 1);
        buffer[string_] := pad.b1;
        buffer[string_ + 1] := pad.b2;
        assert buffer[..string_ + 2] == buffer[..string_] + [pad.b1, pad.b2];
        string_ := string_ + 2;
        i := i + 1;
      }
    }
  }

  /** Copy a piece and fill in the pads it needs. */
  method PutPadded(buffer: array<Octet>, at: nat, source: seq<Octet>, numPad: nat, pad: Chr) returns (scan: nat)
    requires at + |source| + |Encode(Pads(pad, numPad))| <= buffer.Length
    modifies buffer
    ensures scan == at + |source| + |Encode(Pads(pad, numPad))|
    ensures buffer[..scan] == old(buffer[..at]) + (source + Encode(Pads(pad, numPad)))
  {
    scan := at;
    ghost var before := buffer[..at];
    if source != [] {
      MemCpy(buffer, scan, source);
      scan := scan + |source|;
    }
    assert buffer[..scan] == before + source;
    PadsLength(pad, numPad);
    if numPad != 0 {
      SetPadChar(buffer, scan, numPad, pad);
      scan := scan + numPad * |Bytes(pad)|;
    }
  }

  /** The front and the back, copied into one buffer. */
  method JoinSlices(front: seq<Octet>, back: seq<Octet>) returns (result: seq<Octet>)
    ensures result == front + back
  {
    var buffer := new Octet[|back| + |front|];
    MemCpy(buffer, 0, front);
    MemCpy(buffer, |front|, back);
    assert buffer[..buffer.Length] == buffer[..];
    result := buffer[..];
  }

  /** Two padded pieces and a rest fill a buffer exactly. */
  method Assemble(front: seq<Octet>, frontPads: nat, middle: seq<Octet>, middlePads: nat, back: seq<Octet>, pad: Chr)
    returns (result: seq<Octet>)
    ensures result == (front + Encode(Pads(pad, frontPads))) + (middle + Encode(Pads(pad, middlePads))) + back
  {
    var padSize := |Bytes(pad)|;
    PadsLength(pad, frontPads);
    PadsLength(pad, middlePads);
    Distribute(frontPads, middlePads, padSize);
    var buffer := new Octet[|middle| + |front| + |back| + (frontPads + middlePads) * padSize];
    var scan := PutPadded(buffer, 0, front, frontPads, pad);
    scan := PutPadded(buffer, scan, middle, middlePads, pad);
    MemCpy(buffer, scan, back);
    assert buffer[..buffer.Length] == buffer[..];
    result := buffer[..];
  }

  lemma {:induction false} PadsLength(pad: Chr, n: nat)
    ensures |Encode(Pads(pad, n))| == n * |Bytes(pad)|
    ensures n == 0 ==> Encode(Pads(pad, n)) == []
  {
    EncodePads(pad, n);
  }

  lemma {:induction false} Distribute(a: nat, b: nat, k: nat)
    ensures (a + b) * k == a * k + b * k
  {}

  lemma {:induction false} RunOfBytes(pad: Chr, n: nat)
    requires pad.Sbcs?
    ensures Encode(Pads(pad, n)) == seq(n, _ => pad.b)
    decreases n
  {
    EncodePads(pad, n);
    if n > 0 {
      RunOfBytes(pad, n - 1);
      assert seq(n, _ => pad.b) == seq(n - 1, _ => pad.b) + [pad.b];
    } else {
      EncodeEmpty(Pads(pad, 0));
    }
  }
}
