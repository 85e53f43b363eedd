/**
 A segment's bytes as a sequence of frames, and what is left of that sequence when the
 bytes are cut at any point. Parse is the specification that every scanner is proved against.
 */
module Recovery {
  import opened Bytes
  import opened Format

  function Frames(recs: seq<Rec>): seq<Byte>
    decreases |recs|
  {
    if recs == [] then [] else Frame(recs[0]) + Frames(recs[1..])
  }

  /** Why decoding stopped. */
  datatype Stop = AtEnd | Torn | BadCrc | Structural(error: DecodeError)

  /** The records decoded from offset 0 on, the offset after the last of them, and why it ends there. */
  datatype Parsed = Parsed(recs: seq<Rec>, end: nat, stop: Stop)

  function Parse(b: seq<Byte>): (p: Parsed)
    ensures p.end <= |b|
    ensures p.stop.AtEnd? ==> p.end == |b|
    decreases |b|
  {
    if b == [] then Parsed([], 0, AtEnd)
    else match DecodeNext(b, 0)
      case Ok(Decoded(r, n)) =>
        var p := Parse(b[n..]);
        Parsed([r] + p.recs, n + p.end, p.stop)
      case Ok(Truncated(_, _)) => Parsed([], 0, Torn)
      case Ok(CrcMismatch(_)) => Parsed([], 0, BadCrc)
      case Err(e) => Parsed([], 0, Structural(e))
  }

  predicate Clean(b: seq<Byte>) {
    Parse(b).stop.AtEnd?
  }

  lemma {:induction false} FramesConcat(a: seq<Rec>, b: seq<Rec>)
    ensures Frames(a + b) == Frames(a) + Frames(b)
    decreases |a|
  {
    hide Frame;
    if a == [] {
      assert a + b == b;
    } else {
      FramesConcat(a[1..], b);
      assert (a + b)[1..] == a[1..] + b;
    }
  }

  lemma ParseFrame(r: Rec, rest: seq<Byte>)
    ensures Parse(Frame(r) + rest)
         == Parsed([r] + Parse(rest).recs, |Frame(r)| + Parse(rest).end, Parse(rest).stop)
  {
    hide DecodeNext;
    var b, n := Frame(r) + rest, |Frame(r)|;
    FrameDecodes(b, 0, r);
    assert b[n..] == rest;
  }

  /** Parsing takes whole frames off the front and then continues with what follows. */
  lemma {:induction false} ParseFrames(recs: seq<Rec>, rest: seq<Byte>)
    ensures Parse(Frames(recs) + rest)
         == Parsed(recs + Parse(rest).recs, |Frames(recs)| + Parse(rest).end, Parse(rest).stop)
    decreases |recs|
  {
    hide Parse, Frame;
    if recs == [] {
      assert Frames(recs) + rest == rest;
    } else {
      ParseFrames(recs[1..], rest);
      ParseFrame(recs[0], Frames(recs[1..]) + rest);
      assert Frames(recs) + rest == Frame(recs[0]) + (Frames(recs[1..]) + rest);
      assert [recs[0]] + (recs[1..] + Parse(rest).recs) == recs + Parse(rest).recs;
    }
  }

  /** The bytes up to the stopping point are exactly the frames of the records returned. */
  lemma {:induction false} ParsedAreFrames(b: seq<Byte>)
    ensures b[..Parse(b).end] == Frames(Parse(b).recs)
    decreases |b|
  {
    hide DecodeNext, Frame;
    if b != [] && DecodeNext(b, 0).Ok? && DecodeNext(b, 0).value.Decoded? {
      var r, n := DecodeNext(b, 0).value.rec, DecodeNext(b, 0).value.bytesConsumed;
      DecodedIsFrame(b, 0, r, n);
      ParsedAreFrames(b[n..]);
      assert b[..Parse(b).end] == b[0..n] + b[n..][..Parse(b[n..]).end];
    }
  }

  lemma FramesParse(recs: seq<Rec>)
    ensures Parse(Frames(recs)) == Parsed(recs, |Frames(recs)|, AtEnd)
  {
    ParseFrames(recs, []);
    assert Frames(recs) + [] == Frames(recs);
  }

  /** A segment scans clean exactly when it is a concatenation of encodings. */
  lemma CleanIff(b: seq<Byte>)
    ensures Clean(b) <==> exists recs :: b == Frames(recs)
  {
    hide DecodeNext, Frame;
    if Clean(b) {
      ParsedAreFrames(b);
      assert b == Frames(Parse(b).recs);
    }
    forall recs | b == Frames(recs)
      ensures Clean(b)
    {
      FramesParse(recs);
    }
  }

  /** ... and it is a concatenation of encodings in only one way. */
  lemma DecompositionUnique(a: seq<Rec>, b: seq<Rec>)
    requires Frames(a) == Frames(b)
    ensures a == b
  {
    FramesParse(a);
    FramesParse(b);
  }

  // ------------------------------------------------------------------ cutting

  /** How many frames of recs lie wholly within the first k bytes of Frames(recs). */
  function Whole(recs: seq<Rec>, k: nat): (j: nat)
    ensures j <= |recs|
    decreases |recs|
  {
    if recs == [] || k < |Frame(recs[0])| then 0 else 1 + Whole(recs[1..], k - |Frame(recs[0])|)
  }

  lemma CutConcat(all: seq<Byte>, f: seq<Byte>, t: seq<Byte>, fa: seq<Byte>, a: seq<Byte>, k: nat)
    requires all == f + t && fa == f + a
    requires |f| <= k && |a| <= k - |f| <= |t| && t[..k - |f|] == a + t[|a|..k - |f|]
    ensures |fa| <= k <= |all| && all[..k] == fa + all[|fa|..k]
    ensures all[|fa|..k] == t[|a|..k - |f|]
  {
    assert all[..k] == f + t[..k - |f|];
    assert f + (a + t[|a|..k - |f|]) == (f + a) + t[|a|..k - |f|];
  }

  /** The first k bytes of Frames(recs) are the frames of recs[..j] and a proper piece of the next. */
  predicate CutsAt(recs: seq<Rec>, k: nat, j: nat) {
    && j <= |recs| && |Frames(recs[..j])| <= k <= |Frames(recs)|
    && Frames(recs)[..k] == Frames(recs[..j]) + Frames(recs)[|Frames(recs[..j])|..k]
    && (j < |recs| ==> Frames(recs)[|Frames(recs[..j])|..k] < Frame(recs[j]))
    && (j == |recs| ==> k == |Frames(recs)|)
  }

  lemma CutStep(recs: seq<Rec>, k: nat, j: nat)
    requires recs != [] && |Frame(recs[0])| <= k && CutsAt(recs[1..], k - |Frame(recs[0])|, j)
    ensures CutsAt(recs, k, j + 1)
  {
    hide Frame;
    var f, tail := Frame(recs[0]), recs[1..];
    assert recs[..j + 1][1..] == tail[..j];
    assert Frames(recs[..j + 1]) == f + Frames(tail[..j]);
    assert Frames(recs) == f + Frames(tail);
    hide Frames;
    CutConcat(Frames(recs), f, Frames(tail), Frames(recs[..j + 1]), Frames(tail[..j]), k);
  }

  lemma {:induction false} CutShape(recs: seq<Rec>, k: nat)
    requires k <= |Frames(recs)|
    ensures CutsAt(recs, k, Whole(recs, k))
    decreases |recs|
  {
    hide Frame;
    if recs == [] || k < |Frame(recs[0])| {
      assert recs[..0] == [];
    } else {
      CutShape(recs[1..], k - |Frame(recs[0])|);
      CutStep(recs, k, Whole(recs[1..], k - |Frame(recs[0])|));
    }
  }

  /** A frame cut short, possibly to nothing, ends the parse where it starts. */
  lemma TornFrameParses(r: Rec, piece: seq<Byte>)
    requires piece < Frame(r)
    ensures Parse(piece) == Parsed([], 0, if piece == [] then AtEnd else Torn)
  {
    hide DecodeNext, Frame;
    assert piece[0..] == piece;
    TornFrameIsTruncated(piece, 0, r);
  }

  /** Whole frames followed by one frame cut short: the whole frames are what is recovered. */
  lemma TailParses(recs: seq<Rec>, r: Rec, piece: seq<Byte>)
    requires piece < Frame(r)
    ensures Parse(Frames(recs) + piece)
         == Parsed(recs, |Frames(recs)|, if piece == [] then AtEnd else Torn)
  {
    ParseFrames(recs, piece);
    TornFrameParses(r, piece);
    assert recs + [] == recs;
  }

  /**
   Longest valid prefix: parsing the encoding of recs cut after k bytes gives exactly the
   records whose frames lie wholly before the cut and never a CRC or structural error.
   */
  lemma LongestValidPrefix(recs: seq<Rec>, k: nat)
    requires k <= |Frames(recs)|
    ensures var p := Parse(Frames(recs)[..k]);
      && p.recs == recs[..Whole(recs, k)]
      && p.end == |Frames(p.recs)|
      && p.stop == if p.end == k then AtEnd else Torn
  {
    hide Frame, Parse;
    CutShape(recs, k);
    var j := Whole(recs, k);
    var piece := Frames(recs)[|Frames(recs[..j])|..k];
    if j < |recs| {
      TailParses(recs[..j], recs[j], piece);
    } else {
      FramesParse(recs);
      assert recs[..j] == recs && Frames(recs)[..k] == Frames(recs);
    }
  }

  /** Whole counts the frames that end at or before the cut, and no others. */
  lemma {:induction false} WholeIff(recs: seq<Rec>, k: nat, j: nat)
    requires j <= |recs|
    ensures j <= Whole(recs, k) <==> |Frames(recs[..j])| <= k
    decreases |recs|
  {
    hide Frame;
    if j == 0 {
      assert recs[..0] == [];
    } else {
      assert recs[..j][1..] == recs[1..][..j - 1];
      if |Frame(recs[0])| <= k {
        WholeIff(recs[1..], k - |Frame(recs[0])|, j - 1);
      }
    }
  }

  // ------------------------------------------------------------------ walking frame by frame

  /** A cursor has taken the records got off the front of b and stands at offset. */
  predicate AtFrame(b: seq<Byte>, offset: nat, got: seq<Rec>) {
    && offset == |Frames(got)| <= |b|
    && var p := Parse(b[offset..]);
       Parse(b) == Parsed(got + p.recs, offset + p.end, p.stop)
  }

  lemma AtFirstFrame(b: seq<Byte>)
    ensures AtFrame(b, 0, [])
  {
    hide Parse;
    assert b[0..] == b && [] + Parse(b).recs == Parse(b).recs;
  }

  lemma FramesOfOne(r: Rec)
    ensures Frames([r]) == Frame(r) && Parse(Frame(r)) == Parsed([r], |Frame(r)|, AtEnd)
  {
    hide Frame, Parse;
    assert [r][1..] == [];
    assert Frames([r]) == Frame(r) + [] == Frame(r);
    FramesParse([r]);
  }

  lemma FramesSnoc(recs: seq<Rec>, r: Rec)
    ensures Frames(recs + [r]) == Frames(recs) + Frame(r)
  {
    hide Frame;
    FramesConcat(recs, [r]);
    assert Frames([r]) == Frame(r) + Frames([r][1..]) == Frame(r);
  }

  lemma FrameTaken(b: seq<Byte>, offset: nat, got: seq<Rec>, rec: Rec, n: nat)
    requires AtFrame(b, offset, got) && offset < |b| && DecodeNext(b, offset) == Ok(Decoded(rec, n))
    ensures 0 < n == |Frame(rec)| && offset == |Frames(got)| && offset + n <= |b|
    ensures AtFrame(b, offset + n, got + [rec])
  {
    hide DecodeNext, Frame, Frames;
    DecodeIsLocal(b, offset);
    DecodedIsFrame(b, offset, rec, n);
    FramesSnoc(got, rec);
    assert b[offset..][n..] == b[offset + n..];
    assert got + ([rec] + Parse(b[offset + n..]).recs) == (got + [rec]) + Parse(b[offset + n..]).recs;
  }

  function Verdict(d: Decode): Stop {
    match d
    case Ok(Decoded(_, _)) => AtEnd
    case Ok(Truncated(_, _)) => Torn
    case Ok(CrcMismatch(_)) => BadCrc
    case Err(e) => Structural(e)
  }

  lemma FrameStops(b: seq<Byte>, offset: nat, got: seq<Rec>)
    requires AtFrame(b, offset, got)
    requires offset < |b| ==> DecodeNext(b, offset).Ok? ==> !DecodeNext(b, offset).value.Decoded?
    ensures Parse(b) == Parsed(got, offset, if offset == |b| then AtEnd else Verdict(DecodeNext(b, offset)))
  {
    hide DecodeNext, Frames;
    DecodeIsLocal(b, offset);
    assert got + [] == got;
  }
}
