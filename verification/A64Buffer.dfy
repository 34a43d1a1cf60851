// The two word buffers of the AArch64 emitter.
module A64Buffer {
  import opened Words
  import opened TypeSys
  import opened A64Instr

  const CODE_CAP: nat := 0x2000
  const PROL_CAP: nat := 64

  /** What a full buffer keeps: words past the capacity are dropped. */
  function Clip(ws: seq<U32>, cap: nat): seq<U32> {
    if |ws| <= cap then ws else ws[..cap]
  }

  predicate AllWellFormed(code: seq<Instr>) { forall k :: 0 <= k < |code| ==> WellFormed(code[k]) }

  function EncodeOne(i: Instr): (w: U32)
    requires WellFormed(i)
    ensures w == Encode(i) && Decode(w) == Some(i)
  {
    RoundTrip(i, 0);
    Encode(i)
  }

  /** The words of a code sequence. */
  function EncodeAll(code: seq<Instr>): (ws: seq<U32>)
    requires AllWellFormed(code)
    ensures |ws| == |code| && forall k :: 0 <= k < |code| ==> ws[k] == EncodeOne(code[k])
  {
    if code == [] then [] else [EncodeOne(code[0])] + EncodeAll(code[1..])
  }

  lemma EncodeCons(i: Instr, rest: seq<Instr>)
    requires WellFormed(i) && AllWellFormed(rest)
    ensures AllWellFormed([i] + rest) && EncodeAll([i] + rest) == [EncodeOne(i)] + EncodeAll(rest)
  {
    hide EncodeOne, WellFormed;
    assert ([i] + rest)[1..] == rest;
  }

  lemma EncodeAppend(a: seq<Instr>, b: seq<Instr>)
    requires AllWellFormed(a) && AllWellFormed(b)
    ensures AllWellFormed(a + b) && EncodeAll(a + b) == EncodeAll(a) + EncodeAll(b)
  {
    hide EncodeOne, WellFormed;
  }

  /** Every word decodes to its instruction. */
  lemma WordsDecode(code: seq<Instr>)
    requires AllWellFormed(code)
    ensures forall k :: 0 <= k < |code| ==> Decode(EncodeAll(code)[k]) == Some(code[k])
  {
    hide EncodeOne, WellFormed, Decode;
  }

  class WordBuffer {
    const body: array<U32>
    var bodyLen: nat
    const prol: array<U32>
    var prolLen: nat
    var failed: bool   // an error was reported
    ghost var bodyStream: seq<U32>   // everything put since the last reset
    ghost var prolStream: seq<U32>
    ghost var earlier: bool          // an error other than an overflow of these streams

    ghost predicate Valid()
      reads this, body, prol
    {
      && body.Length == CODE_CAP && prol.Length == PROL_CAP && body != prol
      && bodyLen <= CODE_CAP && prolLen <= PROL_CAP
      && body[..bodyLen] == Clip(bodyStream, CODE_CAP)
      && prol[..prolLen] == Clip(prolStream, PROL_CAP)
      && (failed <==> earlier || |bodyStream| > CODE_CAP || |prolStream| > PROL_CAP)
    }

    /** ws was appended to the body (ps to the prologue) and nothing else changed. */
    twostate predicate EmittedBoth(ws: seq<U32>, ps: seq<U32>)
      reads this, body, prol
    {
      && Valid() && earlier == old(earlier) && (old(failed) ==> failed)
      && bodyStream == old(bodyStream) + ws && prolStream == old(prolStream) + ps
    }

    twostate predicate Emitted(ws: seq<U32>)
      reads this, body, prol
    {
      EmittedBoth(ws, [])
    }

    constructor ()
      ensures Valid() && fresh(body) && fresh(prol)
      ensures bodyStream == [] && prolStream == [] && !failed && !earlier
    {
      body := new U32[CODE_CAP](_ => 0);
      prol := new U32[PROL_CAP](_ => 0);
      bodyLen, prolLen, failed := 0, 0, false;
      bodyStream, prolStream, earlier := [], [], false;
    }

    method Reset()
      requires Valid()
      modifies this
      ensures Valid() && bodyStream == [] && prolStream == [] && failed == old(failed) == earlier
    {
      bodyLen, prolLen := 0, 0;
      bodyStream, prolStream, earlier := [], [], failed;
    }

    method ResetPrologue()
      requires Valid()
      modifies this
      ensures Valid() && bodyStream == old(bodyStream) && prolStream == [] && failed == old(failed)
    {
      prolLen := 0;
      prolStream, earlier := [], failed;
    }

    /** Any other error report. */
    method Fail()
      requires Valid()
      modifies this`failed, this`earlier
      ensures Valid() && failed && earlier
    {
      failed := true;
      earlier := true;
    }

    method PutWord(w: U32)
      requires Valid()
      modifies this, body
      ensures Emitted([w])
    {
      bodyStream := bodyStream + [w];
      if bodyLen >= CODE_CAP {
        failed := true;
        return;
      }
      body[bodyLen] := w;
      bodyLen := bodyLen + 1;
    }

    method PutPrologue(w: U32)
      requires Valid()
      modifies this, prol
      ensures EmittedBoth([], [w])
    {
      prolStream := prolStream + [w];
      if prolLen >= PROL_CAP {
        failed := true;
        return;
      }
      prol[prolLen] := w;
      prolLen := prolLen + 1;
    }
  }
}
