/** Concatenations of frames: what the recovery server sends, and how the client splits it again. */
module Framing {
  import opened Orders
  import opened Protocol

  function Concat(frames: seq<Bytes>): Bytes {
    if frames == [] then [] else frames[0] + Concat(frames[1..])
  }

  /** The frames that the replay loop finds: it stops at the first bytes that do not parse. */
  function Split(b: Bytes): seq<Bytes> {
    var p := Parse(b);
    if p.status != Ok || p.consumed == 0 then [] else [b[..p.consumed]] + Split(b[p.consumed..])
  }

  /** How many of the frames lie entirely within the first `cut` bytes of their concatenation. */
  function WholeFrames(frames: seq<Bytes>, cut: nat): (k: nat)
    ensures k <= |frames|
  {
    if frames == [] || |frames[0]| > cut then 0 else 1 + WholeFrames(frames[1..], cut - |frames[0]|)
  }

  lemma {:induction false} WholeFramesIsMaximal(frames: seq<Bytes>, cut: nat)
    ensures var k := WholeFrames(frames, cut);
            && |Concat(frames[..k])| <= cut
            && (k < |frames| ==> |Concat(frames[..k + 1])| > cut)
  {
    if frames != [] {
      var k := WholeFrames(frames, cut);
      assert frames[..1][1..] == [];
      if |frames[0]| <= cut {
        WholeFramesIsMaximal(frames[1..], cut - |frames[0]|);
        assert frames[..k][1..] == frames[1..][..k - 1];
        if k < |frames| {
          assert frames[..k + 1][1..] == frames[1..][..k];
        }
      }
    }
  }

  lemma {:induction false} ConcatAppend(frames: seq<Bytes>, f: Bytes)
    ensures Concat(frames + [f]) == Concat(frames) + f
  {
    if frames == [] {
      assert [f][1..] == [];
    } else {
      ConcatAppend(frames[1..], f);
      assert (frames + [f])[1..] == frames[1..] + [f];
    }
  }

  lemma SplitFirst(f: Bytes, rest: Bytes)
    requires IsFrame(f)
    ensures |f| > 0 && Split(f + rest) == [f] + Split(rest)
  {
    hide Split;
    FrameNotEmpty(f);
    assert f[..|f|] == f;
    ParseIgnoresRest(f, rest);
    assert (f + rest)[..|f|] == f && (f + rest)[|f|..] == rest;
    SplitUnfolds(f + rest);
  }

  lemma FrameNotEmpty(f: Bytes)
    requires IsFrame(f)
    ensures |f| > 0
  {
  }

  lemma EmptyDoesNotParse()
    ensures Parse([]).status != Ok
  {
  }

  lemma SplitUnfolds(b: Bytes)
    ensures var p := Parse(b);
            Split(b) == if p.status != Ok || p.consumed == 0 then [] else [b[..p.consumed]] + Split(b[p.consumed..])
  {
    hide Parse;
  }

  /** Splitting a concatenation of frames, cut at any byte, gives exactly the frames that arrived whole. */
  lemma {:induction false} SplitConcat(frames: seq<Bytes>, cut: nat)
    requires forall i :: 0 <= i < |frames| ==> IsFrame(frames[i])
    requires cut <= |Concat(frames)|
    ensures Split(Concat(frames)[..cut]) == frames[..WholeFrames(frames, cut)]
  {
    hide Parse, Split, IsFrame;
    SplitUnfolds([]);
    EmptyDoesNotParse();
    if frames != [] {
      var f, rest := frames[0], Concat(frames[1..]);
      var b := Concat(frames)[..cut];
      if |f| <= cut {
        SplitConcat(frames[1..], cut - |f|);
        assert b == f + rest[..cut - |f|];
        SplitFirst(f, rest[..cut - |f|]);
        assert frames[..WholeFrames(frames, cut)] == [f] + frames[1..][..WholeFrames(frames[1..], cut - |f|)];
      } else {
        assert b == f[..cut];
        CutFrameIsTruncated(f, cut);
        SplitUnfolds(b);
      }
    }
  }

  // ----- the server's side

  /** The session frames with sequence numbers from `start` to `end`; frame `i` of the session has number `i + 1`. */
  function Requested(session: seq<Bytes>, start: nat, end: nat): seq<Bytes> {
    var from := if start == 0 then 0 else start - 1;
    var to := if end > |session| then |session| else end;
    if from < to then session[from..to] else []
  }

  /** The requested frames up to number `s`, from those before it. */
  lemma RequestedGrows(session: seq<Bytes>, start: nat, s: nat)
    requires start <= s && s > 0
    ensures Requested(session, start, s)
         == if s <= |session| then Requested(session, start, s - 1) + [session[s - 1]]
            else Requested(session, start, s - 1)
  {
  }

  /** The reply to a gap request. */
  method ServeGap(session: seq<Bytes>, start: nat, end: nat) returns (payload: Bytes)
    ensures payload == Concat(Requested(session, start, end))
  {
    hide Requested, Concat;
    payload := [];
    NothingRequested(session, start);
    var s := start;
    while s <= end
      invariant start <= s && (s <= end + 1 || s == start)
      invariant payload == if s == 0 then [] else Concat(Requested(session, start, s - 1))
    {
      if s > 0 {
        RequestedGrows(session, start, s);
      }
      if 1 <= s <= |session| {
        ConcatAppend(Requested(session, start, s - 1), session[s - 1]);
        payload := payload + session[s - 1];
      }
      s := s + 1;
    }
    if s == start {
      EmptyRange(session, start, end);
    }
  }

  lemma NothingRequested(session: seq<Bytes>, start: nat)
    ensures Concat(Requested(session, start, 0)) == []
    ensures start > 0 ==> Concat(Requested(session, start, start - 1)) == []
  {
  }

  lemma EmptyRange(session: seq<Bytes>, start: nat, end: nat)
    requires end < start
    ensures Concat(Requested(session, start, end)) == []
  {
  }
}
