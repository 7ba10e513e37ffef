// What the UBX receiver makes of a whole input stream: it reports only frames that are
// really there, and it finds every frame as long as the bytes between frames cannot be
// mistaken for a sync byte.
module UbxStream {
  import opened Common
  import opened UbxChecksum
  import opened UbxFramer

  ghost predicate WellFormed(frame: seq<u8>) {
    8 <= |frame| <= FRAME_MAX && frame[0] == SYNC1 && frame[1] == SYNC2 && |frame| == Declared(frame)
  }

  // ----- soundness

  // Outside hunting, the collected bytes are the last ones consumed and start a frame.
  ghost predicate Traced(h: seq<u8>, f: Framer) {
    f.state != 0 ==>
      && 1 <= |f.frame| <= |h| && h[|h| - |f.frame|..] == f.frame && f.frame[0] == SYNC1
      && (f.state >= 2 ==> 2 <= |f.frame| && f.frame[1] == SYNC2)
      && (f.state == 3 ==> 6 <= |f.frame| < f.expected <= FRAME_MAX && f.expected == Declared(f.frame))
  }

  lemma RunLast(p: Poll, f: Framer, s: seq<u8>, n: nat)
    requires f.Ok() && 0 < n <= |s|
    ensures Run(p, f, s[..n]) == Step(p, Run(p, f, s[..n - 1]), s[n - 1])
  {
    hide Step;
    assert s[..n][..n - 1] == s[..n - 1];
  }

  lemma {:induction false} AlwaysTraced(p: Poll, h: seq<u8>)
    requires Run(p, START, h).done == PENDING
    ensures Traced(h, Run(p, START, h))
  {
    if h == [] {
      RunNothing(p, START);
    } else {
      hide Step, Traced, Run;
      var n := |h| - 1;
      var f := Run(p, START, h[..n]);
      assert h[..n + 1] == h && h[..n] + [h[n]] == h;
      RunLast(p, START, h, n + 1);
      VerdictStays(p, f, h[n]);
      AlwaysTraced(p, h[..n]);
      TracedStep(p, h[..n], f, h[n]);
    }
  }

  lemma VerdictStays(p: Poll, f: Framer, b: u8)
    requires f.Ok()
    ensures f.done != PENDING ==> Step(p, f, b) == f
  {
    hide Verdict;
  }

  lemma TracedStep(p: Poll, h: seq<u8>, f: Framer, b: u8)
    requires f.Ok() && f.done == PENDING && Traced(h, f) && Step(p, f, b).done == PENDING
    ensures Traced(h + [b], Step(p, f, b))
  {
    hide Verdict;
    var g := Step(p, f, b);
    if f.state != 0 && g.state != 0 {
      assert (h + [b])[|h| - |f.frame|..] == f.frame + [b];
    }
  }

  // The position where the verdict falls.
  lemma {:induction false} VerdictPoint(p: Poll, h: seq<u8>) returns (n: nat)
    requires Run(p, START, h).done != PENDING
    ensures 0 < n <= |h|
    ensures Run(p, START, h[..n - 1]).done == PENDING && Run(p, START, h[..n]) == Run(p, START, h)
  {
    hide Step, Run;
    if h == [] {
      RunNothing(p, START);
    }
    var m := |h| - 1;
    assert h[..m + 1] == h;
    if Run(p, START, h[..m]).done == PENDING {
      n := |h|;
    } else {
      RunLast(p, START, h, m + 1);
      VerdictStays(p, Run(p, START, h[..m]), h[m]);
      n := VerdictPoint(p, h[..m]);
      assert h[..m][..n - 1] == h[..n - 1] && h[..m][..n] == h[..n];
    }
  }

  // A verdict falls with the last byte of a well-formed frame.
  lemma VerdictStep(p: Poll, h: seq<u8>, f: Framer, b: u8)
    requires f.Ok() && f.done == PENDING && Traced(h, f) && Step(p, f, b).done != PENDING
    ensures |f.frame| <= |h| && h[|h| - |f.frame|..] == f.frame && WellFormed(f.frame + [b])
    ensures Verdict(p, f.frame + [b]).0 == Step(p, f, b).done
  {
    hide Verdict;
  }

  // A verdict always comes from one contiguous well-formed frame, the last bytes consumed.
  lemma Soundness(p: Poll, h: seq<u8>) returns (k: nat, n: nat)
    requires Run(p, START, h).done != PENDING
    ensures k < n <= |h| && WellFormed(h[k..n])
    ensures Verdict(p, h[k..n]).0 == Run(p, START, h).done
    ensures Run(p, START, h[..n - 1]).done == PENDING && Run(p, START, h[..n]).done == Run(p, START, h).done
  {
    hide Verdict, Step, Traced, WellFormed, Run;
    n := VerdictPoint(p, h);
    var f := Run(p, START, h[..n - 1]);
    AlwaysTraced(p, h[..n - 1]);
    RunLast(p, START, h, n);
    VerdictStep(p, h[..n - 1], f, h[n - 1]);
    k := n - 1 - |f.frame|;
    assert h[k..n - 1] == h[..n - 1][k..];
    assert h[k..n] == f.frame + [h[n - 1]];
  }

  // A rejection is believed without looking at the checksum.
  lemma RejectionUnchecked()
    ensures var frame: seq<u8> := [0xB5, 0x62, 0x05, 0x00, 0x02, 0x00, 0x0A, 0x04, 0x00, 0x00];
      Result(Run(Poll(0x0A, 0x04), START, frame)) == 2 && !ChecksumOk(frame[2..])
  {
    hide Run;
    var frame: seq<u8> := [0xB5, 0x62, 0x05, 0x00, 0x02, 0x00, 0x0A, 0x04, 0x00, 0x00];
    var s: seq<u8> := [0x05, 0x00, 0x02, 0x00, 0x0A, 0x04, 0x00, 0x00];
    assert SumA(s, 2) == 0x05 && SumA(s, 4) == 0x07 && SumA(s, 6) == 0x15;
    assert frame[2..] == s;
    RunFrame(Poll(0x0A, 0x04), START, frame);
  }

  // Success means a frame of the polled class and id with a correct checksum.
  lemma SuccessMeansFrame(p: Poll, h: seq<u8>) returns (k: nat, n: nat)
    requires Run(p, START, h).done == POLL_MSG_OK
    ensures k < n <= |h| && WellFormed(h[k..n]) && h[k + 2] == p.cls && h[k + 3] == p.id
    ensures ChecksumOk(h[k..n][2..]) && !(p.cls == 0x05 && p.id == 0x00)
  {
    k, n := Soundness(p, h);
  }

  // ----- completeness

  // Bytes in which no header starts and no sync byte is left pending.
  predicate Quiet(w: seq<u8>) {
    if w == [] then true
    else if w[0] != SYNC1 then Quiet(w[1..])
    else 2 <= |w| && w[1] != SYNC2 && Quiet(w[2..])
  }

  // What a stream is made of; a header that announces too long a frame is dropped alone.
  datatype Item = Noise(bytes: seq<u8>) | Oversized(bytes: seq<u8>) | Frame(bytes: seq<u8>) {
    ghost predicate Ok() {
      match this
      case Noise(w) => Quiet(w)
      case Oversized(w) => |w| == 6 && w[0] == SYNC1 && w[1] == SYNC2 && Declared(w) > FRAME_MAX
      case Frame(w) => WellFormed(w)
    }
  }

  function Stream(items: seq<Item>): seq<u8> {
    if items == [] then [] else items[0].bytes + Stream(items[1..])
  }

  // The verdict on a stream, frame by frame.
  function JudgeAll(p: Poll, items: seq<Item>, ckErr: bool): (nat, bool)
    requires forall i :: 0 <= i < |items| ==> items[i].Ok()
  {
    if items == [] then (PENDING, ckErr)
    else if !items[0].Frame? then JudgeAll(p, items[1..], ckErr)
    else
      assert items[0].Ok();
      var v := Verdict(p, items[0].bytes);
      if v.0 != PENDING then (v.0, ckErr || v.1) else JudgeAll(p, items[1..], ckErr || v.1)
  }

  predicate Hunting(f: Framer) {
    f.state == 0 && f.done == PENDING
  }

  lemma RunFirst(p: Poll, f: Framer, s: seq<u8>)
    requires f.Ok() && s != []
    ensures Run(p, f, s) == Run(p, Step(p, f, s[0]), s[1..])
  {
    hide Step;
    assert s == [s[0]] + s[1..];
    RunAppend(p, f, [s[0]], s[1..]);
    RunOne(p, f, s[0]);
  }

  lemma {:induction false} RunNoise(p: Poll, f: Framer, w: seq<u8>)
    requires f.Ok() && Hunting(f) && Quiet(w)
    ensures Hunting(Run(p, f, w)) && Run(p, f, w).ckErr == f.ckErr
    decreases |w|
  {
    hide Run;
    if w == [] {
      RunNothing(p, f);
    } else {
      RunFirst(p, f, w);
      var g := Step(p, f, w[0]);
      if w[0] != SYNC1 {
        RunNoise(p, g, w[1..]);
      } else {
        RunFirst(p, g, w[1..]);
        assert w[1..][1..] == w[2..];
        RunNoise(p, Step(p, g, w[1]), w[2..]);
      }
    }
  }

  lemma RunNothing(p: Poll, f: Framer)
    requires f.Ok()
    ensures Run(p, f, []) == f
  {}

  // The receiver, started hunting as f, holds the first n bytes of the frame w.
  ghost predicate Collected(f: Framer, g: Framer, w: seq<u8>, n: nat) {
    && 1 <= n < |w|
    && g.done == PENDING && g.ckErr == f.ckErr && g.frame == w[..n]
    && g.state == (if n == 1 then 1 else if n < 6 then 2 else 3)
    && (6 <= n ==> g.expected == |w|)
  }

  lemma CollectNext(p: Poll, f: Framer, g: Framer, w: seq<u8>, n: nat)
    requires g.Ok() && WellFormed(w) && n + 1 < |w| && Collected(f, g, w, n)
    ensures Collected(f, Step(p, g, w[n]), w, n + 1)
  {
    hide Verdict;
    assert w[..n] + [w[n]] == w[..n + 1];
  }

  // While a frame is being collected the receiver holds its bytes so far.
  lemma {:induction false} RunPartial(p: Poll, f: Framer, w: seq<u8>, n: nat)
    requires f.Ok() && Hunting(f) && WellFormed(w) && 1 <= n < |w|
    ensures Collected(f, Run(p, f, w[..n]), w, n)
  {
    hide Verdict;
    if n == 1 {
      assert w[..1] == [w[0]];
      RunOne(p, f, w[0]);
    } else {
      hide Collected, Step, Run;
      RunPartial(p, f, w, n - 1);
      RunLast(p, f, w, n);
      CollectNext(p, f, Run(p, f, w[..n - 1]), w, n - 1);
    }
  }

  // Some frame that starts with the given bytes.
  ghost function Completed(w: seq<u8>): (v: seq<u8>)
    requires 1 <= |w| && w[0] == SYNC1 && (2 <= |w| ==> w[1] == SYNC2)
    requires 6 <= |w| ==> |w| < Declared(w) <= FRAME_MAX
    ensures WellFormed(v) && |w| < |v| && w == v[..|w|]
  {
    var sync := if |w| == 1 then w + [SYNC2] else w;
    var header := if |sync| < 6 then sync + seq(6 - |sync|, _ => 0) else sync;
    header + seq(Declared(header) - |header|, _ => 0)
  }

  // A header that announces too long a frame is forgotten, and only the header.
  lemma RunOversized(p: Poll, f: Framer, w: seq<u8>)
    requires f.Ok() && Hunting(f) && Oversized(w).Ok()
    ensures Hunting(Run(p, f, w)) && Run(p, f, w).ckErr == f.ckErr && Run(p, f, w).frame == []
  {
    hide Verdict, Run;
    var v := Completed(w[..5]);
    RunPartial(p, f, v, 5);
    RunLast(p, f, w, 6);
    assert w[..6] == w && w[..5] + [w[5]] == w;
  }

  // A whole frame is taken as one: its verdict counts and hunting starts again.
  lemma RunFrame(p: Poll, f: Framer, w: seq<u8>)
    requires f.Ok() && Hunting(f) && WellFormed(w)
    ensures var v := Verdict(p, w);
      Run(p, f, w) == f.(state := 0, frame := [], expected := |w|, done := v.0, ckErr := f.ckErr || v.1)
  {
    hide Verdict, Run;
    var n := |w| - 1;
    RunPartial(p, f, w, n);
    RunLast(p, f, w, n + 1);
    assert w[..n + 1] == w && w[..n] + [w[n]] == w;
  }

  // Every stream of well-formed frames, quiet bytes and oversized headers is cut exactly at its
  // frames: the outcome is that of judging the frames one after the other.
  lemma {:induction false} Completeness(p: Poll, f: Framer, items: seq<Item>)
    requires f.Ok() && Hunting(f) && forall i :: 0 <= i < |items| ==> items[i].Ok()
    ensures var g := Run(p, f, Stream(items));
      (g.done, g.ckErr) == JudgeAll(p, items, f.ckErr) && (g.done == PENDING ==> Hunting(g))
    decreases |items|
  {
    hide Step, Verdict, Run;
    if items == [] {
      RunNothing(p, f);
    } else {
      var first, rest := items[0], items[1..];
      RunAppend(p, f, first.bytes, Stream(rest));
      var g := Run(p, f, first.bytes);
      assert first.Ok();
      if first.Noise? {
        RunNoise(p, f, first.bytes);
        Completeness(p, g, rest);
      } else if first.Oversized? {
        RunOversized(p, f, first.bytes);
        Completeness(p, g, rest);
      } else {
        RunFrame(p, f, first.bytes);
        if g.done == PENDING {
          Completeness(p, g, rest);
        } else {
          DoneAbsorbs(p, g, Stream(rest));
        }
      }
    }
  }

  // A frame of the polled class and id with a good checksum (the NAK class itself is never
  // taken for an answer).
  predicate Answers(p: Poll, w: seq<u8>) {
    8 <= |w| && w[2] == p.cls && w[3] == p.id && !(p.cls == 0x05 && p.id == 0x00) && ChecksumOk(w[2..])
  }

  // A NAK frame for the poll.
  predicate Rejects(p: Poll, w: seq<u8>) {
    10 <= |w| && w[2] == 0x05 && w[3] == 0x00 && w[6] == p.cls && w[7] == p.id
  }

  predicate Decides(p: Poll, item: Item) {
    item.Frame? && (Answers(p, item.bytes) || Rejects(p, item.bytes))
  }

  // An answer to the poll that was damaged on the way.
  predicate Corrupted(p: Poll, item: Item) {
    && item.Frame? && 8 <= |item.bytes|
    && item.bytes[2] == p.cls && item.bytes[3] == p.id && !(p.cls == 0x05 && p.id == 0x00)
    && !ChecksumOk(item.bytes[2..])
  }

  lemma {:induction false} JudgeFirst(p: Poll, items: seq<Item>, k: nat, ckErr: bool)
    requires forall i :: 0 <= i < |items| ==> items[i].Ok()
    requires k <= |items| && forall i :: 0 <= i < k ==> !Decides(p, items[i])
    ensures k < |items| && Decides(p, items[k]) ==>
      JudgeAll(p, items, ckErr).0 == if Rejects(p, items[k].bytes) then 2 else 1
    ensures k == |items| ==>
      JudgeAll(p, items, ckErr) == (0, ckErr || exists i :: 0 <= i < |items| && Corrupted(p, items[i]))
    decreases k
  {
    if k > 0 {
      assert !Decides(p, items[0]) && items[0].Ok();
      var rest := items[1..];
      var seen := ckErr || Corrupted(p, items[0]);
      JudgeFirst(p, rest, k - 1, seen);
      if i :| 0 <= i < |rest| && Corrupted(p, rest[i]) { assert items[i + 1] == rest[i]; }
      if i :| 1 <= i < |items| && Corrupted(p, items[i]) { assert rest[i - 1] == items[i]; }
    }
  }

  // From any chunks whose bytes are such a stream, the poll returns what its first deciding
  // frame says: 2 for a rejection, 1 for an answer. Without such a frame it reports a checksum
  // error, 3, if and only if a damaged answer was among the frames.
  lemma FirstDecidingFrameWins(p: Poll, items: seq<Item>, k: nat)
    requires forall i :: 0 <= i < |items| ==> items[i].Ok()
    requires k <= |items| && forall i :: 0 <= i < k ==> !Decides(p, items[i])
    ensures var result := Result(Run(p, START, Stream(items)));
      && (k < |items| && Decides(p, items[k]) ==>
            result == if Rejects(p, items[k].bytes) then 2 else 1)
      && (k == |items| ==> result == if exists i :: 0 <= i < |items| && Corrupted(p, items[i]) then 3 else 0)
  {
    hide Run, Decides, Corrupted, JudgeAll, Stream;
    Completeness(p, START, items);
    JudgeFirst(p, items, k, false);
  }

  // ----- any input at all

  // How many bytes the receiver, hunting, consumes before it hunts again; 0 if w ends before.
  function PieceLength(w: seq<u8>): (n: nat)
    ensures n <= |w|
  {
    if w == [] then 0
    else if w[0] != SYNC1 then 1
    else if |w| < 2 then 0
    else if w[1] != SYNC2 then 2
    else if |w| < 6 then 0
    else if Declared(w) > FRAME_MAX then 6
    else if |w| < Declared(w) then 0
    else Declared(w)
  }

  function FirstPiece(w: seq<u8>): (item: Item)
    requires PieceLength(w) > 0
    ensures item.Ok() && item.bytes == w[..PieceLength(w)]
  {
    var bytes := w[..PieceLength(w)];
    if w[0] != SYNC1 || w[1] != SYNC2 then Noise(bytes)
    else if Declared(w) > FRAME_MAX then Oversized(bytes)
    else Frame(bytes)
  }

  // Where the receiver cuts an arbitrary input.
  function Pieces(w: seq<u8>): (items: seq<Item>)
    ensures forall i :: 0 <= i < |items| ==> items[i].Ok()
  {
    if PieceLength(w) == 0 then [] else [FirstPiece(w)] + Pieces(w[PieceLength(w)..])
  }

  // What is left behind the last cut.
  function Rest(w: seq<u8>): seq<u8> {
    if PieceLength(w) == 0 then w else Rest(w[PieceLength(w)..])
  }

  // The input ends at a cut.
  predicate Cut(w: seq<u8>) {
    Rest(w) == []
  }

  lemma StreamFirst(first: Item, rest: seq<Item>)
    ensures Stream([first] + rest) == first.bytes + Stream(rest)
  {}

  lemma NoPieces(w: seq<u8>)
    requires PieceLength(w) == 0
    ensures Pieces(w) == [] && Rest(w) == w && Stream([]) == []
  {}

  lemma PiecesFirst(w: seq<u8>)
    requires PieceLength(w) > 0
    ensures var n := PieceLength(w);
      && Pieces(w) == [FirstPiece(w)] + Pieces(w[n..]) && Rest(w) == Rest(w[n..])
      && Stream(Pieces(w)) == w[..n] + Stream(Pieces(w[n..]))
  {
    hide PieceLength, FirstPiece;
    StreamFirst(FirstPiece(w), Pieces(w[PieceLength(w)..]));
  }

  // The pieces and the rest are the input, and the rest is an unfinished frame or empty.
  lemma {:induction false} PiecesAndRest(w: seq<u8>)
    ensures Stream(Pieces(w)) + Rest(w) == w && PieceLength(Rest(w)) == 0
    decreases |w|
  {
    hide PieceLength, FirstPiece, Pieces, Rest, Stream;
    var n := PieceLength(w);
    if n == 0 {
      NoPieces(w);
    } else {
      PiecesFirst(w);
      PiecesAndRest(w[n..]);
      var head, body, tail := w[..n], Stream(Pieces(w[n..])), Rest(w[n..]);
      assert (head + body) + tail == head + (body + tail);
    }
  }

  // An unfinished frame leaves the receiver in the middle of it.
  lemma RunUnfinished(p: Poll, f: Framer, w: seq<u8>)
    requires f.Ok() && Hunting(f) && PieceLength(w) == 0
    ensures var g := Run(p, f, w);
      g.done == PENDING && g.ckErr == f.ckErr && (g.state == 0 <==> w == [])
  {
    hide Step, Run;
    if w == [] {
      RunNothing(p, f);
    } else {
      var v := Completed(w);
      RunPartial(p, f, v, |w|);
    }
  }

  // On every input whatever the receiver judges exactly the frames of its pieces, and without
  // a verdict it is hunting again if and only if the input ends at a cut.
  lemma EveryInput(p: Poll, f: Framer, w: seq<u8>)
    requires f.Ok() && Hunting(f)
    ensures var g := Run(p, f, w);
      && (g.done, g.ckErr) == JudgeAll(p, Pieces(w), f.ckErr)
      && (g.done == PENDING ==> (g.state == 0 <==> Cut(w)))
  {
    hide Step, Run, Verdict, JudgeAll, Pieces, Rest, Stream, PieceLength;
    var items, rest := Pieces(w), Rest(w);
    PiecesAndRest(w);
    Completeness(p, f, items);
    RunAppend(p, f, Stream(items), rest);
    var g := Run(p, f, Stream(items));
    if g.done == PENDING {
      RunUnfinished(p, g, rest);
    } else {
      DoneAbsorbs(p, g, rest);
    }
  }

  // So the poll returns, for any input, what the first deciding frame among its pieces says, and
  // without one whether a damaged answer is among them.
  lemma FirstDecidingPieceWins(p: Poll, h: seq<u8>, k: nat)
    requires k <= |Pieces(h)| && forall i :: 0 <= i < k ==> !Decides(p, Pieces(h)[i])
    ensures var result := Result(Run(p, START, h));
      && (k < |Pieces(h)| && Decides(p, Pieces(h)[k]) ==>
            result == if Rejects(p, Pieces(h)[k].bytes) then 2 else 1)
      && (k == |Pieces(h)| ==>
            result == if exists i :: 0 <= i < |Pieces(h)| && Corrupted(p, Pieces(h)[i]) then 3 else 0)
  {
    hide Run, Decides, Corrupted, JudgeAll, Pieces;
    EveryInput(p, START, h);
    JudgeFirst(p, Pieces(h), k, false);
  }

  // The frame v behind w is collected from its first byte on and judged with its last.
  ghost predicate TakenWhole(p: Poll, f: Framer, w: seq<u8>, v: seq<u8>)
    requires f.Ok() && WellFormed(v)
  {
    var g := Run(p, f, w);
    && (forall n :: 1 <= n < |v| ==> Collected(g, Run(p, f, w + v[..n]), v, n))
    && Run(p, f, w + v).done == Verdict(p, v).0
    && Run(p, f, w + v).ckErr == (g.ckErr || Verdict(p, v).1)
  }

  // Behind an input without a verdict a frame is taken whole if and only if it starts at a cut.
  lemma FrameBehind(p: Poll, f: Framer, w: seq<u8>, v: seq<u8>)
    requires f.Ok() && Hunting(f) && WellFormed(v) && Run(p, f, w).done == PENDING
    ensures TakenWhole(p, f, w, v) <==> Cut(w)
  {
    hide Run, Verdict, Cut, Collected, JudgeAll, Pieces;
    EveryInput(p, f, w);
    var g := Run(p, f, w);
    RunAppend(p, f, w, v[..1]);
    assert v[..1] == [v[0]];
    RunOne(p, g, v[0]);
    if g.state == 0 {
      RunFrame(p, g, v);
      RunAppend(p, f, w, v);
      forall n | 1 <= n < |v| ensures Collected(g, Run(p, f, w + v[..n]), v, n) {
        RunPartial(p, g, v, n);
        RunAppend(p, f, w, v[..n]);
      }
    } else {
      NotCollected(p, g, v);
      assert !Collected(g, Run(p, f, w + v[..1]), v, 1);
    }
  }

  // In the middle of something a sync byte does not begin a frame.
  lemma NotCollected(p: Poll, g: Framer, v: seq<u8>)
    requires g.Ok() && g.done == PENDING && g.state != 0 && v != [] && v[0] == SYNC1
    ensures !Collected(g, Step(p, g, v[0]), v, 1)
  {
    hide Verdict;
  }

  // Quiet bytes are those that are cut and hold neither frames nor headers.
  lemma {:induction false} QuietIsCutNoise(w: seq<u8>)
    ensures Quiet(w) <==> Cut(w) && forall item :: item in Pieces(w) ==> item.Noise?
    decreases |w|
  {
    var n := PieceLength(w);
    if n > 0 {
      QuietIsCutNoise(w[n..]);
      assert Pieces(w) == [FirstPiece(w)] + Pieces(w[n..]);
      assert FirstPiece(w) in Pieces(w);
    }
  }

  lemma {:induction false} QuietWithoutSync(w: seq<u8>)
    requires forall i :: 0 <= i < |w| ==> w[i] != SYNC1
    ensures Quiet(w)
    decreases |w|
  {
    if w != [] { QuietWithoutSync(w[1..]); }
  }

  // A stray sync byte in front of any frame without a further sync byte costs the frame.
  lemma StraySyncLosesFrame(p: Poll, f: Framer, frame: seq<u8>)
    requires f.Ok() && Hunting(f) && WellFormed(frame)
    requires forall i :: 1 <= i < |frame| ==> frame[i] != SYNC1
    ensures Hunting(Run(p, f, [SYNC1] + frame)) && Run(p, f, [SYNC1] + frame).ckErr == f.ckErr
  {
    var w := [SYNC1] + frame;
    assert w[2..] == frame[1..];
    QuietWithoutSync(w[2..]);
    RunNoise(p, f, w);
  }

  // ----- against a sender

  // A message as the module sends it: sync bytes, class, id, the payload's length low byte first,
  // the payload, and both sums over all but the sync bytes.
  function UbxFrame(cls: u8, id: u8, payload: seq<u8>): (frame: seq<u8>)
    requires |payload| < 0x1_0000
    ensures |frame| == |payload| + 8
  {
    var body := [cls, id, |payload| % 256, |payload| / 256] + payload;
    [0xB5, 0x62] + body + [SumA(body, |body|) % 256, SumB(body, |body|) % 256]
  }

  lemma UbxFrameIs(cls: u8, id: u8, payload: seq<u8>)
    requires |payload| <= 2040
    ensures var frame := UbxFrame(cls, id, payload);
      && WellFormed(frame) && frame[2] == cls && frame[3] == id && frame[6..|frame| - 2] == payload
      && ChecksumOk(frame[2..])
  {
    var n := |payload|;
    var body := [cls, id, n % 256, n / 256] + payload;
    var sums := [SumA(body, |body|) % 256, SumB(body, |body|) % 256];
    var frame := UbxFrame(cls, id, payload);
    assert frame[2..] == body + sums;
    SumsPrefix(body, sums, |body|);
  }

  // What a poll for the class and id makes of such a frame behind bytes without a header.
  lemma BehindNoise(p: Poll, noise: seq<u8>, frame: seq<u8>)
    requires Quiet(noise) && WellFormed(frame)
    ensures Run(p, START, noise + frame).done == Verdict(p, frame).0
    ensures Run(p, START, noise + frame).ckErr == Verdict(p, frame).1
  {
    hide Verdict, Run, Quiet, WellFormed;
    RunNoise(p, START, noise);
    RunAppend(p, START, noise, frame);
    RunFrame(p, Run(p, START, noise), frame);
  }

  // What the poll reports for a message that fits, undamaged, behind bytes without a header: a
  // rejection names the polled class and id in its payload, an answer has them in its header, and
  // any other message is passed over.
  lemma SentFrame(p: Poll, cls: u8, id: u8, payload: seq<u8>, noise: seq<u8>)
    requires |payload| <= 2040 && Quiet(noise)
    ensures Result(Run(p, START, noise + UbxFrame(cls, id, payload)))
         == if cls == 0x05 && id == 0x00 then
              if 2 <= |payload| && payload[0] == p.cls && payload[1] == p.id then 2 else 0
            else if cls == p.cls && id == p.id then 1 else 0
  {
    hide UbxFrame, Run, ChecksumOk;
    var frame := UbxFrame(cls, id, payload);
    UbxFrameIs(cls, id, payload);
    if 2 <= |payload| {
      assert frame[6] == frame[6..|frame| - 2][0] && frame[7] == frame[6..|frame| - 2][1];
    }
    BehindNoise(p, noise, frame);
  }

  // A byte of the payload changed on the way is always reported as a checksum error.
  lemma DamageReported(cls: u8, id: u8, payload: seq<u8>, k: nat, x: u8, noise: seq<u8>)
    requires |payload| <= 2040 && !(cls == 0x05 && id == 0x00) && Quiet(noise)
    requires k < |payload| && x != payload[k]
    ensures Result(Run(Poll(cls, id), START, noise + UbxFrame(cls, id, payload)[6 + k := x])) == 3
  {
    hide UbxFrame, Run, ChecksumOk;
    var frame := UbxFrame(cls, id, payload);
    UbxFrameIs(cls, id, payload);
    assert frame[6 + k] == frame[6..|frame| - 2][k];
    assert frame[6 + k := x][2..] == frame[2..][4 + k := x];
    SingleByteDetected(frame[2..], 4 + k, x);
    BehindNoise(Poll(cls, id), noise, frame[6 + k := x]);
  }

  // The first six bytes of a message of n payload bytes are followed up if and only if the whole
  // message fits the frame buffer.
  lemma HeaderFits(p: Poll, cls: u8, id: u8, n: nat)
    requires n < 0x1_0000
    ensures var g := Run(p, START, [0xB5, 0x62, cls, id, n % 256, n / 256]);
      g.done == 0 && if n <= 2040 then g.state == 3 && g.expected == n + 8 else g.state == 0 && g.frame == []
  {
    hide Run;
    var header: seq<u8> := [0xB5, 0x62, cls, id, n % 256, n / 256];
    if n <= 2040 {
      UbxFrameIs(cls, id, seq(n, _ => 0));
      RunPartial(p, START, UbxFrame(cls, id, seq(n, _ => 0)), 6);
      assert UbxFrame(cls, id, seq(n, _ => 0))[..6] == header;
    } else {
      RunOversized(p, START, header);
    }
  }

  // The frame answering a version poll, which is accepted on its own, is such a frame.
  lemma VersionFrame()
    ensures var frame: seq<u8> := [0xB5, 0x62, 0x0A, 0x04, 0x00, 0x00, 0x0E, 0x34];
      && WellFormed(frame) && (forall i :: 1 <= i < |frame| ==> frame[i] != SYNC1)
      && Verdict(Poll(0x0A, 0x04), frame) == (1, false) && Result(Run(Poll(0x0A, 0x04), START, frame)) == 1
  {
    hide Run;
    var s: seq<u8> := [0x0A, 0x04, 0x00, 0x00, 0x0E, 0x34];
    assert SumA(s, 1) == 0x0A;
    assert SumA(s, 2) == SumA(s, 3) == SumA(s, 4) == 0x0E;
    assert SumB(s, 1) == 0x0A;
    assert SumB(s, 2) == 0x18;
    assert SumB(s, 3) == 0x26;
    assert SumB(s, 4) == 0x34;
    var frame: seq<u8> := [0xB5, 0x62, 0x0A, 0x04, 0x00, 0x00, 0x0E, 0x34];
    assert frame[2..] == s;
    RunFrame(Poll(0x0A, 0x04), START, frame);
  }

  // The same answer with its last byte damaged is reported as a checksum error.
  lemma DamagedVersion()
    ensures var frame: seq<u8> := [0xB5, 0x62, 0x0A, 0x04, 0x00, 0x00, 0x0E, 0x35];
      Result(Run(Poll(0x0A, 0x04), START, frame)) == 3
  {
    hide Run;
    VersionFrame();
    var good: seq<u8> := [0xB5, 0x62, 0x0A, 0x04, 0x00, 0x00, 0x0E, 0x34];
    var frame: seq<u8> := [0xB5, 0x62, 0x0A, 0x04, 0x00, 0x00, 0x0E, 0x35];
    SumsPrefix(good[2..6], good[6..], 4);
    SumsPrefix(good[2..6], frame[6..], 4);
    assert good[2..] == good[2..6] + good[6..] && frame[2..] == good[2..6] + frame[6..];
    RunFrame(Poll(0x0A, 0x04), START, frame);
  }
}
