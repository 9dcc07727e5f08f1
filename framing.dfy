/** Line framing of one TCP connection: each read is appended to the pending
    text, the whole buffer is split on '\n', every piece but the last is
    trimmed and, when something is left, handed on as a message, and the last
    piece becomes the new pending text (TCP/TCPServer.cs, HandleClientAsync). */
module Framing {
  import opened Text

  const Newline: char := '\n'

  function Last<T>(xs: seq<T>): T
    requires |xs| >= 1
  {
    xs[|xs| - 1]
  }

  function AllButLast<T>(xs: seq<T>): seq<T>
    requires |xs| >= 1
  {
    xs[..|xs| - 1]
  }

  /** p is what follows the last '\n' of buf, or all of buf when buf has no
      '\n': a newline-free suffix of buf that is preceded by '\n' unless it is
      the whole of buf. */
  predicate IsRemainder(buf: string, p: string) {
    && |p| <= |buf|
    && buf[|buf| - |p|..] == p
    && Newline !in p
    && (|p| < |buf| ==> buf[|buf| - |p| - 1] == Newline)
  }

  /** String.Split('\n'): the pieces between the separators, always at least
      one. */
  function Split(s: string): (pieces: seq<string>)
    ensures |pieces| >= 1
    decreases |s|
  {
    if s == [] then [[]]
    else
      var rest := Split(s[1..]);
      if s[0] == Newline then [[]] + rest
      else [[s[0]] + rest[0]] + rest[1..]
  }

  /** Split unfolded once, at the first character. */
  lemma {:induction false} SplitCons(c: char, x: string)
    ensures Split([c] + x) ==
            if c == Newline then [[]] + Split(x) else [[c] + Split(x)[0]] + Split(x)[1..]
  {
    assert ([c] + x)[1..] == x;
  }

  /** No piece holds a '\n'. */
  lemma {:induction false} SplitNewlineFree(s: string)
    ensures forall k :: 0 <= k < |Split(s)| ==> Newline !in Split(s)[k]
    decreases |s|
  {
    if s != [] {
      SplitNewlineFree(s[1..]);
    }
  }

  /** A buffer with no '\n' is one piece, itself. */
  lemma {:induction false} SplitWithoutNewline(s: string)
    requires Newline !in s
    ensures Split(s) == [s]
    decreases |s|
  {
    if s != [] {
      assert s == [s[0]] + s[1..];
      SplitWithoutNewline(s[1..]);
      SplitCons(s[0], s[1..]);
    }
  }

  /** A buffer holding a '\n' gives more than one piece. */
  lemma {:induction false} SplitWithNewline(s: string)
    requires Newline in s
    ensures |Split(s)| > 1
    decreases |s|
  {
    assert s == [s[0]] + s[1..];
    SplitCons(s[0], s[1..]);
    if s[0] != Newline {
      SplitWithNewline(s[1..]);
    }
  }

  /** The pieces separated by '\n' again: String.Join("\n", pieces). */
  function Join(pieces: seq<string>): string
  {
    if pieces == [] then []
    else if |pieces| == 1 then pieces[0]
    else pieces[0] + [Newline] + Join(pieces[1..])
  }

  /** Splitting loses nothing: joining the pieces gives the buffer back. */
  lemma {:induction false} JoinSplit(s: string)
    ensures Join(Split(s)) == s
    decreases |s|
  {
    if s != [] {
      var rest := Split(s[1..]);
      JoinSplit(s[1..]);
      assert s == [s[0]] + s[1..];
      if s[0] == Newline {
        assert Split(s) == [[]] + rest;
        assert Split(s)[1..] == rest;
      } else if |rest| > 1 {
        var ps := [[s[0]] + rest[0]] + rest[1..];
        assert Split(s) == ps;
        assert ps[1..] == rest[1..];
        assert Join(rest) == rest[0] + [Newline] + Join(rest[1..]);
      } else {
        assert Split(s) == [[s[0]] + rest[0]];
      }
    }
  }

  lemma {:induction false} JoinLast(pieces: seq<string>)
    requires |pieces| > 1
    ensures Join(pieces) == Join(AllButLast(pieces)) + [Newline] + Last(pieces)
    decreases |pieces|
  {
    if |pieces| > 2 {
      JoinLast(pieces[1..]);
      assert AllButLast(pieces)[1..] == AllButLast(pieces[1..]);
    }
  }

  /** The last piece is the text after the last '\n'. */
  lemma {:induction false} SplitLast(s: string)
    ensures IsRemainder(s, Last(Split(s)))
  {
    var pieces := Split(s);
    SplitNewlineFree(s);
    if |pieces| > 1 {
      JoinSplit(s);
      JoinLast(pieces);
      var j := Join(AllButLast(pieces));
      assert s == j + [Newline] + Last(pieces);
      assert s[|s| - |Last(pieces)| - 1] == Newline;
      assert s[|s| - |Last(pieces)|..] == Last(pieces);
    } else {
      JoinSplit(s);
    }
  }

  /** Splitting s + t re-splits only the last piece of s. */
  lemma {:induction false} SplitAppend(s: string, t: string)
    ensures Split(s + t) == AllButLast(Split(s)) + Split(Last(Split(s)) + t)
    decreases |s|
  {
    if s == [] {
      assert s + t == t;
    } else {
      var c, x := s[0], s[1..];
      assert s == [c] + x;
      assert s + t == [c] + (x + t);
      SplitAppend(x, t);
      if c == Newline {
        SplitAppendNewline(x, t);
      } else if |Split(x)| == 1 {
        SplitAppendSingle(c, x, t);
      } else {
        SplitAppendMany(c, x, t);
      }
    }
  }

  lemma {:induction false} SplitAppendNewline(x: string, t: string)
    requires Split(x + t) == AllButLast(Split(x)) + Split(Last(Split(x)) + t)
    ensures Split([Newline] + x + t) ==
            AllButLast(Split([Newline] + x)) + Split(Last(Split([Newline] + x)) + t)
  {
    var rest := Split(x);
    var tail := Split(Last(rest) + t);
    AppendAssoc([Newline], x, t);
    SplitCons(Newline, x);
    SplitCons(Newline, x + t);
    ConsAllButLast([], rest);
    AppendAssoc([[]], AllButLast(rest), tail);
  }

  lemma {:induction false} AppendAssoc<T>(a: seq<T>, b: seq<T>, c: seq<T>)
    ensures (a + b) + c == a + (b + c)
  {
  }

  lemma {:induction false} ConsAllButLast<T>(h: T, xs: seq<T>)
    requires |xs| >= 1
    ensures AllButLast([h] + xs) == [h] + AllButLast(xs)
    ensures Last([h] + xs) == Last(xs)
  {
  }

  lemma {:induction false} SplitAppendSingle(c: char, x: string, t: string)
    requires c != Newline && |Split(x)| == 1
    requires Split(x + t) == AllButLast(Split(x)) + Split(Last(Split(x)) + t)
    ensures Split([c] + x + t) == AllButLast(Split([c] + x)) + Split(Last(Split([c] + x)) + t)
  {
    var r0 := Split(x)[0];
    AppendAssoc([c], x, t);
    AppendAssoc([c], r0, t);
    SplitCons(c, x);
    SplitCons(c, x + t);
    SplitCons(c, r0 + t);
    SinglePiece(Split(x), Split(r0 + t), Split(x + t));
  }

  /** The list algebra of SplitAppendSingle, with Split out of sight. */
  lemma {:induction false} SinglePiece(rest: seq<string>, tail: seq<string>, q: seq<string>)
    requires |rest| == 1 && q == AllButLast(rest) + tail
    ensures q == tail
    ensures AllButLast(rest) == [] && Last(rest) == rest[0]
  {
  }

  lemma {:induction false} SplitAppendMany(c: char, x: string, t: string)
    requires c != Newline && |Split(x)| > 1
    requires Split(x + t) == AllButLast(Split(x)) + Split(Last(Split(x)) + t)
    ensures Split([c] + x + t) == AllButLast(Split([c] + x)) + Split(Last(Split([c] + x)) + t)
  {
    AppendAssoc([c], x, t);
    SplitCons(c, x);
    SplitCons(c, x + t);
    ManyPieces(c, Split(x), Split(Last(Split(x)) + t), Split(x + t));
  }

  /** The list algebra of SplitAppendMany, with Split out of sight: c joins
      the first piece, and the pieces after it are re-split as before. */
  lemma {:induction false} ManyPieces(c: char, rest: seq<string>, tail: seq<string>, q: seq<string>)
    requires |rest| > 1 && q == AllButLast(rest) + tail
    ensures |q| >= 1
    ensures [[c] + q[0]] + q[1..] == AllButLast([[c] + rest[0]] + rest[1..]) + tail
    ensures Last([[c] + rest[0]] + rest[1..]) == Last(rest)
  {
    var ps := [[c] + rest[0]] + rest[1..];
    assert q[0] == rest[0];
    assert q[1..] == AllButLast(rest)[1..] + tail;
    assert AllButLast(ps) == [[c] + rest[0]] + AllButLast(rest)[1..];
  }

  /** A '\n' between x and y cuts the split in two. */
  lemma {:induction false} SplitAtNewline(x: string, y: string)
    requires Newline !in x
    ensures Split(x + [Newline] + y) == [x] + Split(y)
    decreases |x|
  {
    if x == [] {
      assert x + [Newline] + y == [Newline] + y;
      SplitCons(Newline, y);
    } else {
      var c, x' := x[0], x[1..];
      assert x == [c] + x';
      assert x + [Newline] + y == [c] + (x' + [Newline] + y);
      SplitAtNewline(x', y);
      SplitCons(c, x' + [Newline] + y);
    }
  }

  /** The other half of the round trip: newline-free pieces are exactly what
      splitting their join gives back. */
  lemma {:induction false} SplitJoin(pieces: seq<string>)
    requires |pieces| >= 1
    requires forall k :: 0 <= k < |pieces| ==> Newline !in pieces[k]
    ensures Split(Join(pieces)) == pieces
    decreases |pieces|
  {
    if |pieces| == 1 {
      SplitWithoutNewline(pieces[0]);
    } else {
      SplitJoin(pieces[1..]);
      SplitAtNewline(pieces[0], Join(pieces[1..]));
      assert pieces == [pieces[0]] + pieces[1..];
    }
  }

  /** A framed message: non-empty, trimmed and newline-free. */
  predicate IsMessage(m: string) {
    m != [] && IsTrimmed(m) && Newline !in m
  }

  /** What one complete line contributes: its trimmed text, or nothing when
      it is empty or white space only. */
  function FrameLine(line: string): seq<string>
  {
    var m := Trim(line);
    if m == [] then [] else [m]
  }

  /** A line gives nothing exactly when it is blank, and otherwise its trimmed
      text, which is a message when the line has no '\n'. */
  lemma {:induction false} FrameLineSpec(line: string)
    ensures |FrameLine(line)| <= 1
    ensures FrameLine(line) == [] <==> AllWhiteSpace(line)
    ensures FrameLine(line) != [] ==> FrameLine(line) == [Trim(line)]
    ensures Newline !in line ==> forall k :: 0 <= k < |FrameLine(line)| ==> IsMessage(FrameLine(line)[k])
  {
    TrimSpec(line);
  }

  /** The messages among complete lines, in order. */
  function Frame(lines: seq<string>): seq<string>
  {
    FlatMap(FrameLine, lines)
  }

  function FlatMap<A, B>(f: A -> seq<B>, xs: seq<A>): seq<B>
  {
    if xs == [] then [] else f(xs[0]) + FlatMap(f, xs[1..])
  }

  lemma {:induction false} FlatMapAppend<A, B>(f: A -> seq<B>, a: seq<A>, b: seq<A>)
    ensures FlatMap(f, a + b) == FlatMap(f, a) + FlatMap(f, b)
    decreases |a|
  {
    if a == [] {
      assert a + b == b;
    } else {
      assert (a + b)[1..] == a[1..] + b;
      FlatMapAppend(f, a[1..], b);
    }
  }

  lemma {:induction false} FrameCons(line: string, rest: seq<string>)
    ensures Frame([line] + rest) == FrameLine(line) + Frame(rest)
  {
    assert ([line] + rest)[1..] == rest;
  }

  lemma {:induction false} FrameAppend(a: seq<string>, b: seq<string>)
    ensures Frame(a + b) == Frame(a) + Frame(b)
  {
    FlatMapAppend(FrameLine, a, b);
  }

  /** Framing newline-free lines gives messages only: non-empty, trimmed and
      newline-free, no more of them than there are lines. */
  lemma {:induction false} FrameGivesMessages(lines: seq<string>)
    requires forall k :: 0 <= k < |lines| ==> Newline !in lines[k]
    ensures |Frame(lines)| <= |lines|
    ensures forall k :: 0 <= k < |Frame(lines)| ==> IsMessage(Frame(lines)[k])
    decreases |lines|
  {
    if lines != [] {
      var line, rest := lines[0], lines[1..];
      assert lines == [line] + rest;
      FrameGivesMessages(rest);
      FrameCons(line, rest);
      FrameLineSpec(line);
    }
  }

  /** Every non-blank line gives its trimmed text as a message. */
  lemma {:induction false} FrameKeepsNonBlank(lines: seq<string>, k: nat)
    requires k < |lines| && !AllWhiteSpace(lines[k])
    ensures Trim(lines[k]) in Frame(lines)
    decreases k
  {
    var line, rest := lines[0], lines[1..];
    assert lines == [line] + rest;
    FrameCons(line, rest);
    FrameLineSpec(line);
    if k > 0 {
      FrameKeepsNonBlank(rest, k - 1);
    }
  }

  /** Blank lines (empty or white space only) give no message at all. */
  lemma {:induction false} FrameBlank(lines: seq<string>)
    requires forall k :: 0 <= k < |lines| ==> AllWhiteSpace(lines[k])
    ensures Frame(lines) == []
    decreases |lines|
  {
    if lines != [] {
      var line, rest := lines[0], lines[1..];
      assert lines == [line] + rest;
      FrameBlank(rest);
      FrameCons(line, rest);
      FrameLineSpec(line);
    }
  }

  /** What one read produces: the messages it completes and the text that
      waits for the next read. */
  datatype Fed = Fed(messages: seq<string>, pending: string)

  /** One pass of the read loop: split pending + chunk, frame every piece but
      the last, keep the last. */
  function Feed(pending: string, chunk: string): Fed
  {
    var pieces := Split(pending + chunk);
    Fed(Frame(AllButLast(pieces)), Last(pieces))
  }

  /** The new pending text is what follows the last '\n' of the buffer, every
      message is a framed message, and a read that completes no line only
      lengthens the pending text. */
  lemma {:induction false} FeedSpec(pending: string, chunk: string)
    ensures IsRemainder(pending + chunk, Feed(pending, chunk).pending)
    ensures forall k :: 0 <= k < |Feed(pending, chunk).messages| ==> IsMessage(Feed(pending, chunk).messages[k])
    ensures Newline !in pending + chunk ==> Feed(pending, chunk) == Fed([], pending + chunk)
  {
    var pieces := Split(pending + chunk);
    SplitLast(pending + chunk);
    SplitNewlineFree(pending + chunk);
    FrameGivesMessages(AllButLast(pieces));
    if Newline !in pending + chunk {
      SplitWithoutNewline(pending + chunk);
    }
  }

  lemma {:induction false} AllButLastAppend<T>(x: seq<T>, q: seq<T>)
    requires |q| >= 1
    ensures AllButLast(x + q) == x + AllButLast(q)
    ensures Last(x + q) == Last(q)
  {
  }

  /** Two reads in a row do what one read of both chunks does. */
  lemma {:induction false} FeedTwice(p: string, a: string, b: string)
    ensures var first := Feed(p, a);
            var second := Feed(first.pending, b);
            Feed(p, a + b) == Fed(first.messages + second.messages, second.pending)
  {
    var first := Feed(p, a);
    var second := Feed(first.pending, b);
    var s := Split(p + a);
    var q := Split(first.pending + b);
    assert p + (a + b) == (p + a) + b;
    SplitAppend(p + a, b);
    AllButLastAppend(AllButLast(s), q);
    FrameAppend(AllButLast(s), AllButLast(q));
  }

  /** The whole read loop over a list of chunks. */
  function FeedAll(pending: string, chunks: seq<string>): Fed
    decreases |chunks|
  {
    if chunks == [] then Fed([], pending)
    else
      var first := Feed(pending, chunks[0]);
      var rest := FeedAll(first.pending, chunks[1..]);
      Fed(first.messages + rest.messages, rest.pending)
  }

  function Concat(chunks: seq<string>): string
  {
    if chunks == [] then [] else chunks[0] + Concat(chunks[1..])
  }

  /** Chunking law: feeding text in any split into chunks gives the messages
      and the pending text of feeding all of it at once. */
  lemma {:induction false} FeedAllIsFeed(p: string, chunks: seq<string>)
    requires Newline !in p
    ensures FeedAll(p, chunks) == Feed(p, Concat(chunks))
    decreases |chunks|
  {
    if chunks == [] {
      assert p + [] == p;
      FeedSpec(p, []);
    } else {
      var first := Feed(p, chunks[0]);
      FeedSpec(p, chunks[0]);
      FeedAllIsFeed(first.pending, chunks[1..]);
      FeedTwice(p, chunks[0], Concat(chunks[1..]));
    }
  }

  /** Two splits of the same text are indistinguishable from outside. */
  lemma {:induction false} SameTextSameMessages(c1: seq<string>, c2: seq<string>)
    requires Concat(c1) == Concat(c2)
    ensures FeedAll([], c1) == FeedAll([], c2)
  {
    FeedAllIsFeed([], c1);
    FeedAllIsFeed([], c2);
  }

  /** The messages of a whole stream s read from a fresh connection. */
  function StreamMessages(s: string): seq<string>
  {
    Feed([], s).messages
  }

  /** A trailing segment with no terminating '\n' is never emitted: it only
      lengthens the pending text. */
  lemma {:induction false} FeedWithoutNewline(p: string, c: string)
    requires Newline !in p && Newline !in c
    ensures Feed(p, c) == Fed([], p + c)
  {
    assert Newline !in p + c;
    FeedSpec(p, c);
  }

  lemma {:induction false} UnterminatedTailNeverEmitted(s: string, tail: string)
    requires Newline !in tail
    ensures StreamMessages(s + tail) == StreamMessages(s)
    ensures Feed([], s + tail).pending == Feed([], s).pending + tail
  {
    var first := Feed([], s);
    FeedTwice([], s, tail);
    FeedSpec([], s);
    FeedWithoutNewline(first.pending, tail);
    assert first.messages + [] == first.messages;
  }

  /** The messages of a stream are the non-blank lines before its last '\n',
      trimmed, in order; splitting the stream at a '\n' appends the two
      streams' messages. */
  lemma {:induction false} StreamPieces(s: string)
    ensures StreamMessages(s) == Frame(AllButLast(Split(s)))
  {
    assert [] + s == s;
  }

  lemma {:induction false} StreamMessagesAtNewline(x: string, y: string)
    requires Newline !in x
    ensures StreamMessages(x + [Newline] + y) ==
            (if AllWhiteSpace(x) then [] else [Trim(x)]) + StreamMessages(y)
  {
    var q := Split(y);
    SplitAtNewline(x, y);
    StreamPieces(x + [Newline] + y);
    StreamPieces(y);
    assert AllButLast([x] + q) == [x] + AllButLast(q);
    FrameCons(x, AllButLast(q));
    FrameLineSpec(x);
  }
}
