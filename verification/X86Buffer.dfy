// The two byte buffers of the x86-64 emitter: a function's body, and the prologue that is
// generated after it but placed before it.
module X86Buffer {
  import opened Words

  const CODE_CAP: nat := 0x20000
  const PROL_CAP: nat := 256

  /** What a full buffer keeps: bytes past the capacity are dropped. */
  function Clip(bs: seq<Byte>, cap: nat): seq<Byte> {
    if |bs| <= cap then bs else bs[..cap]
  }

  class CodeBuffer {
    const body: array<Byte>
    var bodyLen: nat
    const prol: array<Byte>
    var prolLen: nat
    var emitToProl: bool
    var failed: bool   // an error was reported
    ghost var bodyStream: seq<Byte>   // everything put since the last reset
    ghost var prolStream: seq<Byte>
    ghost var earlier: bool           // an error other than an overflow of these streams

    ghost predicate Valid()
      reads this, body, prol
    {
      && body.Length == CODE_CAP && prol.Length == PROL_CAP && body != prol
      && bodyLen <= CODE_CAP && prolLen <= PROL_CAP
      && body[..bodyLen] == Clip(bodyStream, CODE_CAP)
      && prol[..prolLen] == Clip(prolStream, PROL_CAP)
      && (failed <==> earlier || |bodyStream| > CODE_CAP || |prolStream| > PROL_CAP)
    }

    /** The stream of the selected buffer, and of the other one. */
    ghost function Selected(): seq<Byte>
      reads this
    {
      if emitToProl then prolStream else bodyStream
    }

    ghost function Unselected(): seq<Byte>
      reads this
    {
      if emitToProl then bodyStream else prolStream
    }

    /** bs was appended to the selected buffer and nothing else changed; by validity the
        error flag is raised exactly when a buffer has overflowed. */
    twostate predicate Emitted(bs: seq<Byte>)
      reads this, body, prol
    {
      && Valid() && emitToProl == old(emitToProl) && earlier == old(earlier) && (old(failed) ==> failed)
      && Selected() == old(Selected()) + bs && Unselected() == old(Unselected())
    }

    constructor ()
      ensures Valid() && fresh(body) && fresh(prol)
      ensures bodyStream == [] && prolStream == [] && !emitToProl && !failed && !earlier
    {
      body := new Byte[CODE_CAP](_ => 0);
      prol := new Byte[PROL_CAP](_ => 0);
      bodyLen, prolLen, emitToProl, failed := 0, 0, false, false;
      bodyStream, prolStream, earlier := [], [], false;
    }

    method Reset()
      requires Valid()
      modifies this
      ensures Valid() && bodyStream == [] && prolStream == [] && !emitToProl && failed == old(failed) == earlier
    {
      bodyLen, prolLen, emitToProl := 0, 0, false;
      bodyStream, prolStream, earlier := [], [], failed;
    }

    /** Any other error report. */
    method Fail()
      requires Valid()
      modifies this`failed, this`earlier
      ensures Valid() && failed && earlier
    {
      failed := true;
      earlier := true;
    }

    method Select(toProl: bool)
      requires Valid()
      modifies this`emitToProl
      ensures Valid() && emitToProl == toProl
    {
      emitToProl := toProl;
    }

    method Put8(b: Byte)
      requires Valid()
      modifies this, body, prol
      ensures Emitted([b])
    {
      if emitToProl {
        prolStream := prolStream + [b];
        if prolLen >= PROL_CAP {
          failed := true;
          return;
        }
        prol[prolLen] := b;
        prolLen := prolLen + 1;
        return;
      }
      bodyStream := bodyStream + [b];
      if bodyLen >= CODE_CAP {
        failed := true;
        return;
      }
      body[bodyLen] := b;
      bodyLen := bodyLen + 1;
    }

    method Put16(v: int)
      requires Valid()
      modifies this, body, prol
      ensures Emitted(LE(v, 2))
    {
      Put8(v % 256);
      Put8(v / 256 % 256);
      LE2(v);
    }

    method Put32(v: int)
      requires Valid()
      modifies this, body, prol
      ensures Emitted(LE(v, 4))
    {
      hide Valid, Selected, Unselected, LE;
      Put8(v % 256);
      Put8(v / 0x100 % 256);
      Put8(v / 0x1_0000 % 256);
      Put8(v / 0x100_0000 % 256);
      LE4(v);
    }

    method Put64(v: int)
      requires Valid()
      modifies this, body, prol
      ensures Emitted(LE(v, 8))
    {
      hide Valid, Selected, Unselected, LE;
      Put32(v);
      Put32(v / P32);
      LEHalves(v);
    }

    /** The offset the next byte will have in the selected buffer. */
    function CurOff(): nat
      reads this
    {
      if emitToProl then prolLen else bodyLen
    }
  }
}
