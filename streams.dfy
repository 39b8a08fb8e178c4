/**
 * `raise_while_not_fileobj`: probe a caller's stream for the operations a decoder
 * needs, in the order read, seek, write, each only when asked for, and raise on the
 * first probe that fails.
 *
 * The stream is described by how each operation answers its probe (`read(0)`,
 * `seek(0, SEEK_END)`, `write(b"")`); the bytes and the cursor behind it are not.
 */
module Streams {
  import opened Wrappers

  /** How a stream answers a call of one operation. */
  datatype Behaviour =
    | Absent   // the object has no such attribute: the call raises and `hasattr` is false
    | Raises   // the attribute exists, but calling it raises
    | Works    // the call returns

  /** A stream handle as the probes see it. `readReturnsBytes` says whether a working
      `read` returns `bytes` (a binary stream) or something else (a text stream). */
  datatype Stream = Stream(read: Behaviour, readReturnsBytes: bool, seek: Behaviour, write: Behaviour)

  datatype Capability = Read | Seek | Write

  /** Which of the source's messages is raised: "not a valid file object" (Missing),
      "cannot read from / seek in / write to file object" (Failed), or
      "not opened in binary mode" (NotBinary). */
  datatype Cause = Missing | Failed | NotBinary

  /** The ValueError raised, as data: the capability probed and why it failed. */
  datatype CapabilityError = CapabilityError(capability: Capability, cause: Cause)

  /** What a failed call means: a missing attribute or a call that raised. */
  function CallFailure(b: Behaviour): Option<Cause> {
    match b
    case Absent => Some(Missing)
    case Raises => Some(Failed)
    case Works => None
  }

  /** The probe of one capability, on its own: `None` when it passes. */
  function Probe(s: Stream, c: Capability): Option<Cause> {
    match c
    case Read => if s.read == Works && !s.readReturnsBytes then Some(NotBinary) else CallFailure(s.read)
    case Seek => CallFailure(s.seek)
    case Write => CallFailure(s.write)
  }

  /** The order the probes run in. */
  const ProbeOrder: seq<Capability> := [Read, Seek, Write]

  function Requested(c: Capability, readable: bool, seekable: bool, writable: bool): bool {
    match c
    case Read => readable
    case Seek => seekable
    case Write => writable
  }

  /** The first requested capability of `order` whose probe fails, as a failure. */
  function FirstFailure(order: seq<Capability>, s: Stream, readable: bool, seekable: bool, writable: bool)
    : Outcome<CapabilityError>
  {
    if order == [] then Pass
    else if Requested(order[0], readable, seekable, writable) && Probe(s, order[0]).Some? then
      Fail(CapabilityError(order[0], Probe(s, order[0]).value))
    else FirstFailure(order[1..], s, readable, seekable, writable)
  }

  /** The outcome the source's keyword-only defaults give: read and seek are checked,
      write is not. */
  function Validate(s: Stream, nameonly readable: bool := true, nameonly seekable: bool := true,
                    nameonly writable: bool := false): Outcome<CapabilityError>
  {
    FirstFailure(ProbeOrder, s, readable, seekable, writable)
  }

  /** `raise_while_not_fileobj(fileobj, readable=..., seekable=..., writable=...)`,
      probe by probe; `Fail` stands for the raised ValueError. */
  method RaiseWhileNotFileobj(s: Stream, nameonly readable: bool := true, nameonly seekable: bool := true,
                              nameonly writable: bool := false)
    returns (r: Outcome<CapabilityError>)
    ensures r == Validate(s, readable := readable, seekable := seekable, writable := writable)
  {
    ValidateInOrder(s, readable, seekable, writable);
    if readable {
      // data = fileobj.read(0), with the failure classified by hasattr(fileobj, "read")
      match s.read
      case Absent => return Fail(CapabilityError(Read, Missing));
      case Raises => return Fail(CapabilityError(Read, Failed));
      case Works =>
        if !s.readReturnsBytes {
          return Fail(CapabilityError(Read, NotBinary));
        }
    }
    if seekable {
      // fileobj.seek(0, os.SEEK_END)
      match s.seek
      case Absent => return Fail(CapabilityError(Seek, Missing));
      case Raises => return Fail(CapabilityError(Seek, Failed));
      case Works =>
    }
    if writable {
      // fileobj.write(b"")
      match s.write
      case Absent => return Fail(CapabilityError(Write, Missing));
      case Raises => return Fail(CapabilityError(Write, Failed));
      case Works =>
    }
    return Pass;
  }

  /* ---------- laws ---------- */

  /** A probe's failure says what went wrong: Missing exactly when the operation is
      absent, Failed exactly when it raises, NotBinary only for a read that returned
      something other than bytes. */
  lemma ProbeCauses(s: Stream, c: Capability)
    ensures Probe(s, c) == Some(Missing) <==> Operation(s, c) == Absent
    ensures Probe(s, c) == Some(Failed) <==> Operation(s, c) == Raises
    ensures Probe(s, c) == Some(NotBinary) <==> c == Read && s.read == Works && !s.readReturnsBytes
    ensures Probe(s, c) == None <==> Operation(s, c) == Works && (c == Read ==> s.readReturnsBytes)
  {
  }

  function Operation(s: Stream, c: Capability): Behaviour {
    match c
    case Read => s.read
    case Seek => s.seek
    case Write => s.write
  }

  /** FirstFailure passes exactly when every requested probe of `order` passes. */
  lemma {:induction false} FirstFailurePassesIff(order: seq<Capability>, s: Stream, readable: bool, seekable: bool, writable: bool)
    ensures FirstFailure(order, s, readable, seekable, writable).Pass? <==>
              forall i :: 0 <= i < |order| && Requested(order[i], readable, seekable, writable) ==> Probe(s, order[i]).None?
  {
    if order != [] {
      FirstFailurePassesIff(order[1..], s, readable, seekable, writable);
      if FirstFailure(order, s, readable, seekable, writable).Pass? {
        forall i | 0 <= i < |order| && Requested(order[i], readable, seekable, writable)
          ensures Probe(s, order[i]).None?
        {
          if i > 0 { assert order[i] == order[1..][i - 1]; }
        }
      } else if !(Requested(order[0], readable, seekable, writable) && Probe(s, order[0]).Some?) {
        var i :| 0 <= i < |order[1..]| && Requested(order[1..][i], readable, seekable, writable) && Probe(s, order[1..][i]).Some?;
        assert order[1..][i] == order[i + 1];
      }
    }
  }

  /** A failure of FirstFailure names the earliest requested capability of `order`
      whose probe fails, with that probe's cause. */
  lemma {:induction false} FirstFailureFailsAtFirst(order: seq<Capability>, s: Stream, readable: bool, seekable: bool, writable: bool)
    requires FirstFailure(order, s, readable, seekable, writable).Fail?
    ensures var e := FirstFailure(order, s, readable, seekable, writable).error;
            exists k :: 0 <= k < |order| && order[k] == e.capability
                        && Requested(order[k], readable, seekable, writable) && Probe(s, order[k]) == Some(e.cause)
                        && forall i :: 0 <= i < k && Requested(order[i], readable, seekable, writable) ==> Probe(s, order[i]).None?
  {
    var e := FirstFailure(order, s, readable, seekable, writable).error;
    if Requested(order[0], readable, seekable, writable) && Probe(s, order[0]).Some? {
      assert order[0] == e.capability;
    } else {
      FirstFailureFailsAtFirst(order[1..], s, readable, seekable, writable);
      var k :| 0 <= k < |order[1..]| && order[1..][k] == e.capability
               && Requested(order[1..][k], readable, seekable, writable) && Probe(s, order[1..][k]) == Some(e.cause)
               && forall i :: 0 <= i < k && Requested(order[1..][i], readable, seekable, writable) ==> Probe(s, order[1..][i]).None?;
      assert order[k + 1] == order[1..][k];
      forall i | 0 <= i < k + 1 && Requested(order[i], readable, seekable, writable)
        ensures Probe(s, order[i]).None?
      {
        if i > 0 { assert order[i] == order[1..][i - 1]; }
      }
    }
  }

  /** Validate, unfolded over the three probes in their order. */
  lemma ValidateInOrder(s: Stream, readable: bool, seekable: bool, writable: bool)
    ensures Validate(s, readable := readable, seekable := seekable, writable := writable) ==
              if readable && Probe(s, Read).Some? then Fail(CapabilityError(Read, Probe(s, Read).value))
              else if seekable && Probe(s, Seek).Some? then Fail(CapabilityError(Seek, Probe(s, Seek).value))
              else if writable && Probe(s, Write).Some? then Fail(CapabilityError(Write, Probe(s, Write).value))
              else Pass
  {
    var rest := FirstFailure([Seek, Write], s, readable, seekable, writable);
    assert ProbeOrder[1..] == [Seek, Write];
    assert [Seek, Write][1..] == [Write];
    assert [Write][1..] == [];
    assert FirstFailure([Write], s, readable, seekable, writable) ==
             if writable && Probe(s, Write).Some? then Fail(CapabilityError(Write, Probe(s, Write).value)) else Pass;
    assert rest == if seekable && Probe(s, Seek).Some? then Fail(CapabilityError(Seek, Probe(s, Seek).value))
                   else FirstFailure([Write], s, readable, seekable, writable);
  }

  /** The check passes exactly when each requested probe passes. */
  lemma ValidatePassesIff(s: Stream, readable: bool, seekable: bool, writable: bool)
    ensures Validate(s, readable := readable, seekable := seekable, writable := writable).Pass? <==>
              && (readable ==> Probe(s, Read).None?)
              && (seekable ==> Probe(s, Seek).None?)
              && (writable ==> Probe(s, Write).None?)
  {
    FirstFailurePassesIff(ProbeOrder, s, readable, seekable, writable);
    assert ProbeOrder[0] == Read && ProbeOrder[1] == Seek && ProbeOrder[2] == Write;
  }

  /** A failure names a requested capability whose probe failed, after every earlier
      requested probe passed: a failing read is reported before seek and write are
      tried, a failing seek before write. */
  lemma ValidateFailsAtFirst(s: Stream, readable: bool, seekable: bool, writable: bool)
    requires Validate(s, readable := readable, seekable := seekable, writable := writable).Fail?
    ensures var e := Validate(s, readable := readable, seekable := seekable, writable := writable).error;
            && Requested(e.capability, readable, seekable, writable)
            && Probe(s, e.capability) == Some(e.cause)
            && (e.capability != Read && readable ==> Probe(s, Read).None?)
            && (e.capability == Write && seekable ==> Probe(s, Seek).None?)
  {
    FirstFailureFailsAtFirst(ProbeOrder, s, readable, seekable, writable);
    var e := Validate(s, readable := readable, seekable := seekable, writable := writable).error;
    var k :| 0 <= k < |ProbeOrder| && ProbeOrder[k] == e.capability
             && Requested(ProbeOrder[k], readable, seekable, writable) && Probe(s, ProbeOrder[k]) == Some(e.cause)
             && forall i :: 0 <= i < k && Requested(ProbeOrder[i], readable, seekable, writable) ==> Probe(s, ProbeOrder[i]).None?;
    if e.capability != Read && readable {
      assert k > 0 && ProbeOrder[0] == Read;
    }
    if e.capability == Write && seekable {
      assert k == 2 && ProbeOrder[1] == Seek;
    }
  }

  /** With the defaults the write operation is never looked at. */
  lemma DefaultsIgnoreWrite(s: Stream, w: Behaviour)
    ensures Validate(s) == Validate(s.(write := w))
    ensures Validate(s) == Validate(s, writable := false)
  {
    ValidateInOrder(s, true, true, false);
    ValidateInOrder(s.(write := w), true, true, false);
  }

  /** A stream that reads bytes and seeks but cannot write passes the default check and
      fails the one that asks for writing, naming Write as missing. */
  lemma ReadSeekOnlyStream()
    ensures Validate(Stream(Works, true, Works, Absent)) == Pass
    ensures Validate(Stream(Works, true, Works, Absent), writable := true) == Fail(CapabilityError(Write, Missing))
  {
  }

  /** A stream without seek fails on Seek, whatever its write operation does. */
  lemma NoSeekStream(w: Behaviour, writable: bool)
    ensures Validate(Stream(Works, true, Absent, w), writable := writable) == Fail(CapabilityError(Seek, Missing))
  {
    ValidateInOrder(Stream(Works, true, Absent, w), true, true, writable);
  }

  /** A text-mode stream fails the read check as not binary. */
  lemma TextStream(seek: Behaviour, write: Behaviour)
    ensures Validate(Stream(Works, false, seek, write)) == Fail(CapabilityError(Read, NotBinary))
  {
  }
}
