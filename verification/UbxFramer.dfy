// The byte-driven UBX receiver inside poll_ubx_data: it hunts for the two sync bytes,
// collects header and payload, and judges every complete frame against the poll.
module UbxFramer {
  import opened Common
  import opened UbxChecksum

  const SYNC1: u8 := 0xB5
  const SYNC2: u8 := 0x62
  const FRAME_MAX: nat := 2048

  const PENDING: nat := 0
  const POLL_MSG_OK: nat := 1
  const POLL_MSG_NAK: nat := 2
  const POLL_MSG_CKSUM_ERR: nat := 3

  datatype Poll = Poll(cls: u8, id: u8)

  // state: 0 hunting, 1 first sync byte seen, 2 collecting the header, 3 collecting the rest.
  datatype Framer = Framer(state: nat, frame: seq<u8>, expected: nat, done: nat, ckErr: bool) {
    predicate Ok() {
      && state <= 3
      && (state == 1 ==> |frame| == 1)
      && (state == 2 ==> 2 <= |frame| < 6)
      && (state == 3 ==> 6 <= |frame| < expected <= FRAME_MAX && 8 <= expected)
    }
  }

  function Declared(header: seq<u8>): nat
    requires 6 <= |header|
  {
    header[5] as nat * 256 + header[4] as nat + 8
  }

  // What a complete frame means for the poll: the done code and whether its checksum failed.
  function Verdict(p: Poll, frame: seq<u8>): (nat, bool)
    requires 8 <= |frame|
  {
    if frame[2] == 0x05 && frame[3] == 0x00 then
      (if 10 <= |frame| && frame[6] == p.cls && frame[7] == p.id then POLL_MSG_NAK else PENDING, false)
    else if frame[2] == p.cls && frame[3] == p.id then
      if ChecksumOk(frame[2..]) then (POLL_MSG_OK, false) else (PENDING, true)
    else (PENDING, false)
  }

  function Step(p: Poll, f: Framer, b: u8): (r: Framer)
    requires f.Ok()
    ensures r.Ok()
  {
    if f.done != PENDING then f
    else if f.state == 0 then
      if b == SYNC1 then f.(state := 1, frame := [b]) else f
    else if f.state == 1 then
      if b == SYNC2 then f.(state := 2, frame := f.frame + [b]) else f.(state := 0)
    else
      var frame := f.frame + [b];
      if f.state == 2 then
        if |frame| < 6 then f.(frame := frame)
        else
          var expected := Declared(frame);
          if expected > FRAME_MAX then f.(state := 0, frame := [], expected := expected)
          else f.(state := 3, frame := frame, expected := expected)
      else if |frame| < f.expected then f.(frame := frame)
      else
        var v := Verdict(p, frame);
        f.(state := 0, frame := [], done := v.0, ckErr := f.ckErr || v.1)
  }

  function Run(p: Poll, f: Framer, s: seq<u8>): (r: Framer)
    requires f.Ok()
    ensures r.Ok()
  {
    if s == [] then f else Step(p, Run(p, f, s[..|s| - 1]), s[|s| - 1])
  }

  const START := Framer(0, [], 0, PENDING, false)

  function Result(f: Framer): nat {
    if f.done == PENDING && f.ckErr then POLL_MSG_CKSUM_ERR else f.done
  }

  lemma {:induction false} RunAppend(p: Poll, f: Framer, s: seq<u8>, t: seq<u8>)
    requires f.Ok()
    ensures Run(p, f, s + t) == Run(p, Run(p, f, s), t)
  {
    hide Step;
    if t == [] {
      assert s + t == s;
    } else {
      var n := |t| - 1;
      RunAppend(p, f, s, t[..n]);
      assert (s + t)[..|s + t| - 1] == s + t[..n];
    }
  }

  lemma RunOne(p: Poll, f: Framer, b: u8)
    requires f.Ok()
    ensures Run(p, f, [b]) == Step(p, f, b)
  {
    assert [b][..0] == [];
  }

  lemma {:induction false} DoneAbsorbs(p: Poll, f: Framer, s: seq<u8>)
    requires f.Ok() && f.done != PENDING
    ensures Run(p, f, s) == f
  {
    if s != [] { DoneAbsorbs(p, f, s[..|s| - 1]); }
  }

  // ----- the receive loop

  // The variables the receive loop works on.
  class Receiver {
    const p: Poll
    var state: nat
    const frame: array<u8>
    var frameLen: nat
    var expectedLen: nat
    var done: nat
    var cksumErrSeen: bool

    ghost predicate Valid()
      reads this, frame
    {
      frame.Length == FRAME_MAX && frameLen <= FRAME_MAX && Value().Ok()
    }

    ghost function Value(): Framer
      requires frame.Length == FRAME_MAX && frameLen <= FRAME_MAX
      reads this, frame
    {
      Framer(state, frame[..frameLen], expectedLen, done, cksumErrSeen)
    }

    constructor (p: Poll)
      ensures Valid() && fresh(frame) && this.p == p && Value() == START
    {
      this.p := p;
      frame := new u8[FRAME_MAX];
      state, frameLen, expectedLen, done, cksumErrSeen := 0, 0, 0, PENDING, false;
    }

    method Store(b: u8)
      requires Valid() && frameLen < FRAME_MAX
      modifies this`frameLen, frame
      ensures frameLen == old(frameLen) + 1 && frame[..frameLen] == old(frame[..frameLen]) + [b]
    {
      frame[frameLen] := b;
      frameLen := frameLen + 1;
    }

    // One byte while no verdict has been reached.
    method TakeByte(b: u8)
      requires Valid() && done == PENDING
      modifies this, frame
      ensures Valid() && Value() == Step(p, old(Value()), b)
    {
      match state {
        case 0 =>
          if b == SYNC1 {
            frameLen := 0;
            Store(b);
            state := 1;
          }
        case 1 =>
          if b == SYNC2 {
            Store(b);
            state := 2;
          } else {
            state := 0;
          }
        case 2 =>
          Store(b);
          if frameLen >= 6 {
            expectedLen := frame[5] as nat * 256 + frame[4] as nat + 8;
            if expectedLen > FRAME_MAX || expectedLen < 8 {
              state := 0;
              frameLen := 0;
            } else {
              state := 3;
            }
          }
        case _ =>
          Store(b);
          if frameLen >= expectedLen {
            Judge();
            state := 0;
            frameLen := 0;
          }
      }
    }

    // Compare a complete frame with the poll.
    method Judge()
      requires frame.Length == FRAME_MAX && 8 <= expectedLen == frameLen <= FRAME_MAX && done == PENDING
      modifies this`done, this`cksumErrSeen
      ensures var v := Verdict(p, frame[..frameLen]); done == v.0 && cksumErrSeen == (old(cksumErrSeen) || v.1)
    {
      var cls, id := frame[2], frame[3];
      if cls == 0x05 && id == 0x00 {
        if expectedLen >= 10 && frame[6] == p.cls && frame[7] == p.id {
          done := POLL_MSG_NAK;
        }
      } else if cls == p.cls && id == p.id {
        assert frame[..frameLen][2..] == frame[2..expectedLen];
        var good := DoChecksum(frame[2..expectedLen]);
        if good {
          done := POLL_MSG_OK;
        } else {
          cksumErrSeen := true;
        }
      }
    }

    method TakeChunk(buf: seq<u8>)
      requires Valid()
      modifies this, frame
      ensures Valid() && Value() == Run(p, old(Value()), buf)
    {
      hide Step, Verdict;
      var i := 0;
      while i < |buf| && done == PENDING
        invariant i <= |buf| && Valid()
        invariant Value() == Run(p, old(Value()), buf[..i])
      {
        assert buf[..i + 1][..i] == buf[..i];
        TakeByte(buf[i]);
        i := i + 1;
      }
      assert buf[..i] + buf[i..] == buf;
      RunAppend(p, old(Value()), buf[..i], buf[i..]);
      if done == PENDING {
        assert buf[i..] == [];
      } else {
        DoneAbsorbs(p, Value(), buf[i..]);
      }
    }
  }

  function Concat(chunks: seq<seq<u8>>): seq<u8> {
    if chunks == [] then [] else Concat(chunks[..|chunks| - 1]) + chunks[|chunks| - 1]
  }

  lemma {:induction false} ConcatSplit(chunks: seq<seq<u8>>, c: nat)
    requires c <= |chunks|
    ensures Concat(chunks) == Concat(chunks[..c]) + Concat(chunks[c..])
  {
    var n := |chunks|;
    if c == n {
      assert chunks[..c] == chunks && chunks[c..] == [];
    } else {
      ConcatSplit(chunks[..n - 1], c);
      assert chunks[..n - 1][..c] == chunks[..c];
      assert chunks[c..][..n - c - 1] == chunks[..n - 1][c..];
      assert chunks[c..][n - c - 1] == chunks[n - 1];
    }
  }

  // poll_ubx_data over the chunks that read returns before the deadline. However the input is
  // cut into chunks, the result is that of one pass over all of it.
  method PollUbxData(p: Poll, chunks: seq<seq<u8>>) returns (result: nat)
    ensures result == Result(Run(p, START, Concat(chunks)))
  {
    hide Step, Verdict;
    var r := new Receiver(p);
    var c := 0;
    while c < |chunks| && r.done == PENDING
      invariant c <= |chunks| && fresh(r) && fresh(r.frame) && r.Valid() && r.p == p
      invariant r.Value() == Run(p, START, Concat(chunks[..c]))
    {
      RunAppend(p, START, Concat(chunks[..c]), chunks[c]);
      assert chunks[..c + 1][..c] == chunks[..c];
      r.TakeChunk(chunks[c]);
      c := c + 1;
    }
    ConcatSplit(chunks, c);
    RunAppend(p, START, Concat(chunks[..c]), Concat(chunks[c..]));
    if r.done == PENDING {
      assert chunks[c..] == [];
      result := if r.cksumErrSeen then POLL_MSG_CKSUM_ERR else PENDING;
    } else {
      DoneAbsorbs(p, r.Value(), Concat(chunks[c..]));
      result := r.done;
    }
  }
}
