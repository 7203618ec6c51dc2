/**
 The two-byte length framing spoken on both pipes between the Erlang VM and the
 port program. A byte is modelled as a `char`, so a byte stream is a `string`.
 */
module Framing {
  import opened Sequences

  type Bytes = string

  const HEADER_SIZE := 2

  /** The largest frame a two-byte length can announce, header included. */
  const MAX_FRAME := 65537

  /** `htons` of a length that is first narrowed to `uint16_t`. */
  function Header(n: nat): Bytes {
    [((n / 256) % 256) as char, (n % 256) as char]
  }

  function Frame(m: Bytes): Bytes {
    Header(|m|) + m
  }

  function FrameAll(ms: seq<Bytes>): Bytes {
    if ms == [] then [] else Frame(ms[0]) + FrameAll(ms[1..])
  }

  /** The length announced by the first two bytes of a stream. */
  function Announced(s: Bytes): nat
    requires |s| >= HEADER_SIZE
  {
    s[0] as int * 256 + s[1] as int
  }

  /** Everything a reader can know of a stream: the complete frames, the bytes
      that follow them, and whether those begin with a length over the limit. */
  datatype Parsed = Parsed(frames: seq<Bytes>, rest: Bytes, tooLong: bool)

  /** A stream of bytes proper. */
  predicate Octets(s: Bytes) {
    forall i :: 0 <= i < |s| ==> s[i] as int < 256
  }

  /** What the first frame of a stream is, for a reader whose buffer holds `cap` bytes. */
  datatype First = Complete(message: Bytes) | Incomplete | TooLong

  function FirstFrame(s: Bytes, cap: nat): First {
    if |s| < HEADER_SIZE then Incomplete
    else if Announced(s) + HEADER_SIZE > cap then TooLong
    else if Announced(s) + HEADER_SIZE > |s| then Incomplete
    else Complete(s[HEADER_SIZE..HEADER_SIZE + Announced(s)])
  }

  function Parse(s: Bytes, cap: nat): Parsed {
    match FirstFrame(s, cap)
    case Incomplete => Parsed([], s, false)
    case TooLong => Parsed([], s, true)
    case Complete(m) =>
      var p := Parse(s[HEADER_SIZE + |m|..], cap);
      Parsed([m] + p.frames, p.rest, p.tooLong)
  }

  lemma AnnouncedOfFrame(m: Bytes, t: Bytes)
    requires |m| < 65536
    ensures |Frame(m) + t| >= HEADER_SIZE && Announced(Frame(m) + t) == |m|
    ensures (Frame(m) + t)[HEADER_SIZE..HEADER_SIZE + |m|] == m
    ensures (Frame(m) + t)[HEADER_SIZE + |m|..] == t
  {
  }

  /** A frame in front of anything is read back whole, whatever its length. */
  lemma FirstOfFrame(m: Bytes, t: Bytes, cap: nat)
    requires |m| < 65536 && |m| + HEADER_SIZE <= cap
    ensures FirstFrame(Frame(m) + t, cap) == Complete(m)
    ensures (Frame(m) + t)[HEADER_SIZE + |m|..] == t
  {
    AnnouncedOfFrame(m, t);
  }

  lemma ParseStep(m: Bytes, t: Bytes, cap: nat)
    requires |m| < 65536 && |m| + HEADER_SIZE <= cap
    ensures var q := Parse(t, cap);
            Parse(Frame(m) + t, cap) == Parsed([m] + q.frames, q.rest, q.tooLong)
  {
    FirstOfFrame(m, t, cap);
  }

  /** Every message can be framed for, and held whole by, a reader of `cap` bytes. */
  predicate Framable(ms: seq<Bytes>, cap: nat) {
    forall i :: 0 <= i < |ms| ==> |ms[i]| < 65536 && |ms[i]| + HEADER_SIZE <= cap
  }

  /** Frames in front of any stream are parsed first and leave the rest untouched. */
  lemma {:induction false} ParseFrameAll(ms: seq<Bytes>, t: Bytes, cap: nat)
    requires Framable(ms, cap)
    ensures var q := Parse(t, cap);
            Parse(FrameAll(ms) + t, cap) == Parsed(ms + q.frames, q.rest, q.tooLong)
  {
    var q := Parse(t, cap);
    if ms == [] {
      assert FrameAll(ms) + t == t;
      assert ms + q.frames == q.frames;
    } else {
      ParseFrameAll(ms[1..], t, cap);
      ParseStep(ms[0], FrameAll(ms[1..]) + t, cap);
      assert FrameAll(ms) + t == Frame(ms[0]) + (FrameAll(ms[1..]) + t);
      ConsAppend(ms, q.frames);
    }
  }

  /** Round trip: the concatenation of frames parses to exactly the messages. */
  lemma FramesRoundTrip(ms: seq<Bytes>, cap: nat)
    requires Framable(ms, cap)
    ensures Parse(FrameAll(ms), cap) == Parsed(ms, [], false)
  {
    ParseFrameAll(ms, [], cap);
    assert FrameAll(ms) + [] == FrameAll(ms);
    assert ms + [] == ms;
  }

  /** More bytes never change the frames already found; after an over-long
      length nothing further is ever found. */
  lemma {:induction false} ParseAppend(s: Bytes, t: Bytes, cap: nat)
    ensures var p := Parse(s, cap);
            Parse(s + t, cap) == if p.tooLong then Parsed(p.frames, p.rest + t, true)
                                 else var q := Parse(p.rest + t, cap);
                                      Parsed(p.frames + q.frames, q.rest, q.tooLong)
    decreases |s|
  {
    match FirstFrame(s, cap)
    case Incomplete =>
      var q := Parse(s + t, cap);
      assert [] + q.frames == q.frames;
    case TooLong =>
      assert Announced(s + t) == Announced(s);
    case Complete(m) =>
      var s' := s[HEADER_SIZE + |m|..];
      FirstKept(s, t, cap);
      ParseAppend(s', t, cap);
      var p' := Parse(s', cap);
      if !p'.tooLong {
        Assoc([m], p'.frames, Parse(p'.rest + t, cap).frames);
      }
  }

  /** More bytes do not change a complete first frame. */
  lemma FirstKept(s: Bytes, t: Bytes, cap: nat)
    requires FirstFrame(s, cap).Complete?
    ensures FirstFrame(s + t, cap) == FirstFrame(s, cap)
    ensures var n := HEADER_SIZE + |FirstFrame(s, cap).message|;
            (s + t)[n..] == s[n..] + t
  {
    assert Announced(s + t) == Announced(s);
    var n := HEADER_SIZE + Announced(s);
    assert (s + t)[HEADER_SIZE..n] == s[HEADER_SIZE..n];
  }

  /** FrameAll distributes over concatenation. */
  lemma {:induction false} FrameAllAppend(a: seq<Bytes>, b: seq<Bytes>)
    ensures FrameAll(a + b) == FrameAll(a) + FrameAll(b)
  {
    if a == [] {
      assert a + b == b;
    } else {
      assert (a + b)[1..] == a[1..] + b;
      FrameAllAppend(a[1..], b);
    }
  }

  lemma FrameAllOne(m: Bytes)
    ensures FrameAll([m]) == Frame(m)
  {
    assert [m][1..] == [];
    assert Frame(m) + [] == Frame(m);
  }

  /** A complete first frame, framed again, is the front of the stream. */
  lemma FrameOfFirst(s: Bytes, cap: nat)
    requires FirstFrame(s, cap).Complete? && Octets(s)
    ensures var m := FirstFrame(s, cap).message; s == Frame(m) + s[HEADER_SIZE + |m|..]
  {
    var m := FirstFrame(s, cap).message;
    assert |m| == Announced(s) < 65536;
    assert Frame(m)[0] == s[0] && Frame(m)[1] == s[1];
  }

  /** A frame is the length, its high byte first, and the message. */
  lemma FrameExact(m: Bytes)
    requires |m| < 65536
    ensures Frame(m) == [(|m| / 256) as char, (|m| % 256) as char] + m
  {
  }

  /** What a reader of `cap` bytes sees first: a message exactly when its whole
      frame is there and fits, a length over the limit, or less than either. */
  lemma FirstFrameExact(s: Bytes, m: Bytes, cap: nat)
    requires Octets(s)
    ensures FirstFrame(s, cap) == Complete(m) <==> |m| < 65536 && |m| + 2 <= cap && Frame(m) <= s
    ensures FirstFrame(s, cap) == TooLong <==> |s| >= 2 && s[0] as int * 256 + s[1] as int + 2 > cap
  {
    if FirstFrame(s, cap) == Complete(m) {
      FrameOfFirst(s, cap);
    }
    if |m| < 65536 && |m| + 2 <= cap && Frame(m) <= s {
      assert s == Frame(m) + s[|m| + 2..];
      FirstOfFrame(m, s[|m| + 2..], cap);
    }
  }

  /** A length survives `htons` exactly when it fits sixteen bits. */
  lemma HeaderExact(m: Bytes)
    ensures Announced(Frame(m)) == |m| <==> |m| < 65536
  {
  }
}
