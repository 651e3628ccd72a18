/**
 * Newline framing of a connection's byte stream (server.js lines 197-225). The stream is
 * given a reference reading, one byte at a time: bytes collect in a partial line until
 * a newline completes it. The lemmas show that this reading accounts for every byte once
 * and in order, and that it does not depend on how the stream was cut into chunks.
 */
module Framing {

  type Byte = b: int | 0 <= b < 256
  type Bytes = seq<Byte>

  /** The delimiter: "\n" in the 'binary' encoding. */
  const LF: Byte := 10

  /** The complete lines read so far (without their newline) and the partial line after them. */
  datatype Framed = Framed(lines: seq<Bytes>, rest: Bytes)

  function Feed(f: Framed, data: Bytes): Framed
    decreases |data|
  {
    if |data| == 0 then f
    else if data[0] == LF then Feed(Framed(f.lines + [f.rest], []), data[1..])
    else Feed(Framed(f.lines, f.rest + [data[0]]), data[1..])
  }

  function Frame(data: Bytes): Framed {
    Feed(Framed([], []), data)
  }

  /** Each line followed by its newline, all concatenated. */
  function Join(lines: seq<Bytes>): Bytes {
    if |lines| == 0 then [] else lines[0] + [LF] + Join(lines[1..])
  }

  /**
   * `Buffer.indexOf(byte, from)`: the first position at or after `from` holding `x`, or -1.
   */
  function IndexOf(b: Bytes, x: Byte, from: nat): (r: int)
    requires from <= |b|
    ensures r == -1 || from <= r < |b|
    ensures r == -1 ==> forall i :: from <= i < |b| ==> b[i] != x
    ensures r != -1 ==> b[r] == x && forall i :: from <= i < r ==> b[i] != x
    decreases |b| - from
  {
    if from == |b| then -1
    else if b[from] == x then from
    else
      IndexOf(b, x, from + 1)
  }

  /**
   * The framing as the handler's loop performs it: from `from`, find the next newline with
   * IndexOf, take the bytes before it as a line and go on after it; once no newline is
   * left, what remains is the partial line.
   */
  function Scan(b: Bytes, from: nat): Framed
    requires from <= |b|
    decreases |b| - from
  {
    var eol := IndexOf(b, LF, from);
    if eol == -1 then Framed([], b[from..])
    else
      var next := Scan(b, eol + 1);
      Framed([b[from..eol]] + next.lines, next.rest)
  }

  lemma {:induction false} FeedAppend(f: Framed, a: Bytes, b: Bytes)
    ensures Feed(f, a + b) == Feed(Feed(f, a), b)
    decreases |a|
  {
    if |a| == 0 {
      assert a + b == b;
    } else {
      assert (a + b)[0] == a[0] && (a + b)[1..] == a[1..] + b;
      if a[0] == LF {
        FeedAppend(Framed(f.lines + [f.rest], []), a[1..], b);
      } else {
        FeedAppend(Framed(f.lines, f.rest + [a[0]]), a[1..], b);
      }
    }
  }

  /** Lines already read are never revisited: feeding more bytes only appends to them. */
  lemma {:induction false} FeedKeepsLines(f: Framed, data: Bytes)
    ensures var g := Feed(Framed([], f.rest), data);
            Feed(f, data) == Framed(f.lines + g.lines, g.rest)
    decreases |data|
  {
    if |data| > 0 {
      if data[0] == LF {
        var rest := Feed(Framed([], []), data[1..]);
        FeedKeepsLines(Framed(f.lines + [f.rest], []), data[1..]);
        FeedKeepsLines(Framed([f.rest], []), data[1..]);
        assert [] + [f.rest] == [f.rest];
        assert Feed(Framed([], f.rest), data) == Framed([f.rest] + rest.lines, rest.rest);
        assert f.lines + [f.rest] + rest.lines == f.lines + ([f.rest] + rest.lines);
      } else {
        FeedKeepsLines(Framed(f.lines, f.rest + [data[0]]), data[1..]);
      }
    } else {
      assert f.lines + [] == f.lines;
    }
  }

  /** Bytes without a newline only lengthen the partial line. */
  lemma {:induction false} FeedNoNewline(f: Framed, data: Bytes)
    requires LF !in data
    ensures Feed(f, data) == Framed(f.lines, f.rest + data)
    decreases |data|
  {
    if |data| > 0 {
      assert data == [data[0]] + data[1..];
      FeedNoNewline(Framed(f.lines, f.rest + [data[0]]), data[1..]);
      assert f.rest + [data[0]] + data[1..] == f.rest + data;
    } else {
      assert f.rest + data == f.rest;
    }
  }

  /** Reading up to the first newline yields the bytes before it as the first line. */
  lemma FrameAtNewline(b: Bytes, k: nat)
    requires k < |b| && b[k] == LF && LF !in b[..k]
    ensures Frame(b) == Framed([b[..k]] + Frame(b[k + 1..]).lines, Frame(b[k + 1..]).rest)
  {
    assert b == b[..k] + ([b[k]] + b[k + 1..]);
    FeedAppend(Framed([], []), b[..k], [b[k]] + b[k + 1..]);
    FeedNoNewline(Framed([], []), b[..k]);
    assert [] + b[..k] == b[..k];
    assert ([b[k]] + b[k + 1..])[1..] == b[k + 1..];
    assert [] + [b[..k]] == [b[..k]];
    assert Feed(Framed([], b[..k]), [b[k]] + b[k + 1..]) == Feed(Framed([b[..k]], []), b[k + 1..]);
    FeedKeepsLines(Framed([b[..k]], []), b[k + 1..]);
  }

  /** FrameAtNewline for the bytes from `from` on, as the framing loop consumes them. */
  lemma FrameFrom(b: Bytes, from: nat, eol: nat)
    requires from <= eol < |b| && b[eol] == LF && LF !in b[from..eol]
    ensures Frame(b[from..]) == Framed([b[from..eol]] + Frame(b[eol + 1..]).lines, Frame(b[eol + 1..]).rest)
  {
    assert b[from..][..eol - from] == b[from..eol];
    assert b[from..][eol - from + 1..] == b[eol + 1..];
    FrameAtNewline(b[from..], eol - from);
  }

  /** Without a newline nothing is complete: all the bytes are the partial line. */
  lemma FrameNoNewline(b: Bytes)
    requires LF !in b
    ensures Frame(b) == Framed([], b)
  {
    FeedNoNewline(Framed([], []), b);
    assert [] + b == b;
  }

  /** Searching for newlines with IndexOf frames the bytes exactly as reading them one at a time. */
  lemma {:induction false} ScanIsFrame(b: Bytes, from: nat)
    requires from <= |b|
    ensures Scan(b, from) == Frame(b[from..])
    decreases |b| - from
  {
    var eol := IndexOf(b, LF, from);
    if eol == -1 {
      assert LF !in b[from..] by {
        forall k | 0 <= k < |b| - from ensures b[from..][k] != LF {
          assert b[from..][k] == b[from + k];
        }
      }
      FrameNoNewline(b[from..]);
    } else {
      assert LF !in b[from..eol] by {
        forall k | 0 <= k < eol - from ensures b[from..eol][k] != LF {
          assert b[from..eol][k] == b[from + k];
        }
      }
      FrameFrom(b, from, eol);
      ScanIsFrame(b, eol + 1);
    }
  }

  /**
   * Appending a chunk to a buffer and scanning it from `used` frames exactly the bytes
   * after `used` followed by the chunk.
   */
  lemma ScanResumes(prev: Bytes, used: nat, data: Bytes)
    requires used <= |prev|
    ensures Scan(prev + data, used) == Frame(prev[used..] + data)
  {
    assert (prev + data)[used..] == prev[used..] + data;
    ScanIsFrame(prev + data, used);
  }

  /** The general form of FrameRoundTrip, for a reading already under way. */
  lemma {:induction false} FeedRoundTrip(f: Framed, data: Bytes)
    requires LF !in f.rest && forall i :: 0 <= i < |f.lines| ==> LF !in f.lines[i]
    ensures var g := Feed(f, data);
            Join(g.lines) + g.rest == Join(f.lines) + f.rest + data &&
            LF !in g.rest && forall i :: 0 <= i < |g.lines| ==> LF !in g.lines[i]
    decreases |data|
  {
    if |data| > 0 {
      var next := if data[0] == LF then Framed(f.lines + [f.rest], []) else Framed(f.lines, f.rest + [data[0]]);
      JoinAppend(f.lines, f.rest);
      FeedRoundTrip(next, data[1..]);
      assert data == [data[0]] + data[1..];
    }
  }

  lemma {:induction false} JoinAppend(lines: seq<Bytes>, line: Bytes)
    ensures Join(lines + [line]) == Join(lines) + line + [LF]
    decreases |lines|
  {
    if |lines| == 0 {
      assert Join([line]) == line + [LF] + Join([]);
    } else {
      assert (lines + [line])[1..] == lines[1..] + [line];
      JoinAppend(lines[1..], line);
    }
  }

  /**
   * Exactly once, in order: the complete lines, each followed by its newline, and then the
   * partial line give back the stream byte for byte; no line and no partial line holds a newline.
   */
  lemma FrameRoundTrip(data: Bytes)
    ensures Join(Frame(data).lines) + Frame(data).rest == data
    ensures LF !in Frame(data).rest
    ensures forall i :: 0 <= i < |Frame(data).lines| ==> LF !in Frame(data).lines[i]
  {
    FeedRoundTrip(Framed([], []), data);
  }

  /**
   * Chunk boundaries are invisible: reading `a` and then, after the partial line left
   * over, `b`, gives the same lines and the same partial line as reading `a + b` at once.
   */
  lemma ChunksAreInvisible(a: Bytes, b: Bytes)
    ensures var first := Frame(a);
            var second := Frame(first.rest + b);
            first.lines + second.lines == Frame(a + b).lines && second.rest == Frame(a + b).rest
  {
    var first := Frame(a);
    FeedAppend(Framed([], []), a, b);
    FeedKeepsLines(first, b);
    FrameRoundTrip(a);
    FeedNoNewline(Framed([], []), first.rest);
    assert [] + first.rest == first.rest;
    FeedAppend(Framed([], []), first.rest, b);
  }
}
