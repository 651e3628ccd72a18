/**
 * One client connection of the server (server.js lines 189-227): the 'data' handler
 * appends each chunk to `buf`, answers every complete line after `used`, moves `used`
 * past it, and drops the buffer once everything in it has been consumed.
 *
 * What the handler calls but does not itself define is given to the connection as
 * `decode`, what reading a line as UTF-8 JSON and destructuring it into `[id, source]`
 * yields. A reply, `JSON.stringify([id, source_to_colors(source)])`, is recorded as the
 * `id` and `source` it is computed from; its colouring part is Walker.SourceToColors
 * over the tree the parser returns. `written` is what the handler has passed to
 * `connection.write`, in order.
 */
module Server {
  import opened Wrappers
  import opened Framing

  /** A request line read as `[id, source]`; `id` may be `null`, here `None`. */
  datatype Message<Id> = Message(id: Option<Id>, source: string)

  /** One write to the connection: the reply carrying `id` and the colours of `source`. */
  datatype Response<Id> = Response(id: Id, source: string)

  class Connection<Id> {
    /**
     * What `JSON.parse` and the destructuring make of each line; a line outside its
     * domain is one on which they throw, so that `id` stays `null`.
     */
    const decode: imap<Bytes, Message<Id>>

    /** The received bytes not yet dropped; `None` is `null`. */
    var buf: Option<Bytes>
    /** How much of `buf` has been consumed. */
    var used: nat
    /** Every reply written to the connection, in order. */
    var written: seq<Response<Id>>

    /**
     * Between chunks the unconsumed bytes hold no newline, and a buffer that is wholly
     * consumed has been dropped.
     */
    ghost predicate Valid()
      reads this
    {
      match buf
      case None => used == 0
      case Some(b) => used < |b| && forall i :: used <= i < |b| ==> b[i] != LF
    }

    /** The bytes received but not yet consumed: the start of a line still incomplete. */
    function Pending(): Bytes
      reads this
    {
      match buf
      case None => []
      case Some(b) => if used <= |b| then b[used..] else []
    }

    /** The reply to one complete line: one write when it decodes with an `id` that is not `null`. */
    function Reply(line: Bytes): seq<Response<Id>> {
      if line in decode && decode[line].id.Some? then [Response(decode[line].id.value, decode[line].source)]
      else []
    }

    /** The replies to a run of complete lines, in the order of the lines. */
    function Replies(lines: seq<Bytes>): seq<Response<Id>> {
      if |lines| == 0 then [] else Reply(lines[0]) + Replies(lines[1..])
    }

    constructor (decode: imap<Bytes, Message<Id>>)
      ensures Valid() && buf == None && used == 0 && written == []
      ensures this.decode == decode
    {
      this.decode := decode;
      buf := None;
      used := 0;
      written := [];
    }

    /**
     * The 'data' handler. Every line completed by this chunk is decoded once, in arrival
     * order, and answered when it carries an `id`; what is left is the incomplete line.
     */
    method OnData(data: Bytes)
      requires Valid()
      modifies this
      ensures Valid()
      ensures written == old(written) + Replies(Frame(old(Pending()) + data).lines)
      ensures Pending() == Frame(old(Pending()) + data).rest
      ensures buf == None <==> Pending() == []
    {
      ghost var frame := Frame(Pending() + data);
      if buf == None {
        ScanResumes([], 0, data);
        assert [] + data == data && [][0..] + data == Pending() + data;
        buf := Some(data);
      } else {
        ScanResumes(buf.value, used, data);
        assert buf.value[used..] == Pending();
        buf := Some(buf.value + data);
      }
      assert Scan(buf.value, used) == frame;
      Drain();
      Release();
    }

    /**
     * The loop of the 'data' handler: answers every complete line of `buf` after `used`
     * and moves `used` past it, leaving only the incomplete line unconsumed.
     */
    method Drain()
      requires buf.Some? && used <= |buf.value|
      modifies this`used, this`written
      ensures used <= |buf.value| && IndexOf(buf.value, LF, used) == -1
      ensures written == old(written) + Replies(Scan(buf.value, old(used)).lines)
      ensures buf.value[used..] == Scan(buf.value, old(used)).rest
    {
      var b := buf.value;
      ghost var todo := Scan(b, used).lines;
      ghost var left := Scan(b, used).rest;
      ghost var owed := written + Replies(todo);
      var eol := IndexOf(b, LF, used);
      while eol > -1
        invariant used <= |b|
        invariant eol == IndexOf(b, LF, used)
        invariant Scan(b, used) == Framed(todo, left)
        invariant written + Replies(todo) == owed
        decreases |b| - used
      {
        eol, todo := Consume(b, eol, todo, left, owed);
      }
      Finished(b, used, todo, left, written, owed);
    }

    /**
     * One turn of the handler's loop: answers the line ending at `eol`, moves `used` past
     * it and finds the next newline; the replies still owed stay as they were.
     */
    method Consume(b: Bytes, eol: int, ghost todo: seq<Bytes>, ghost left: Bytes, ghost owed: seq<Response<Id>>)
        returns (next: int, ghost rest: seq<Bytes>)
      requires used <= |b| && eol == IndexOf(b, LF, used) && eol != -1
      requires Scan(b, used) == Framed(todo, left) && written + Replies(todo) == owed
      modifies this`used, this`written
      ensures old(used) < used <= |b| && next == IndexOf(b, LF, used)
      ensures Scan(b, used) == Framed(rest, left) && written + Replies(rest) == owed
    {
      ghost var before := written;
      Answer(b[used..eol]);
      rest := AnswerLine(b, used, eol, todo, left, before, written, owed);
      used := eol + 1;
      next := IndexOf(b, LF, used);
    }

    /** A scan that finds no newline has no line left to answer. */
    lemma Finished(b: Bytes, u: nat, todo: seq<Bytes>, left: Bytes, w: seq<Response<Id>>, owed: seq<Response<Id>>)
      requires u <= |b| && IndexOf(b, LF, u) == -1
      requires Scan(b, u) == Framed(todo, left) && w + Replies(todo) == owed
      ensures w == owed && left == b[u..]
    {
      assert w + [] == w;
    }

    /** The check after the loop: a buffer consumed to its end is dropped. */
    method Release()
      requires buf.Some? && used <= |buf.value| && IndexOf(buf.value, LF, used) == -1
      modifies this`buf, this`used
      ensures Valid()
      ensures Pending() == old(Pending())
      ensures buf == None <==> Pending() == []
    {
      if used == |buf.value| {
        buf := None;
        used := 0;
      }
    }

    /** Decodes one complete line and writes the reply it calls for, if any. */
    method Answer(line: Bytes)
      modifies this`written
      ensures written == old(written) + Reply(line)
    {
      if line in decode && decode[line].id.Some? {
        written := written + [Response(decode[line].id.value, decode[line].source)];
      }
    }

    /**
     * One turn of the handler's loop: answering the line that ends at `eol` and moving
     * past it leaves the replies still owed as they were.
     */
    lemma AnswerLine(b: Bytes, used: nat, eol: int, todo: seq<Bytes>, left: Bytes, before: seq<Response<Id>>, after: seq<Response<Id>>, owed: seq<Response<Id>>)
        returns (next: seq<Bytes>)
      requires used <= |b| && eol == IndexOf(b, LF, used) && eol != -1
      requires Scan(b, used) == Framed(todo, left)
      requires after == before + Reply(b[used..eol])
      requires before + Replies(todo) == owed
      ensures Scan(b, eol + 1) == Framed(next, left)
      ensures after + Replies(next) == owed
    {
      next := Scan(b, eol + 1).lines;
      RepliesCons(b[used..eol], next);
      assert before + Reply(b[used..eol]) + Replies(next) == before + (Reply(b[used..eol]) + Replies(next));
    }

    lemma RepliesCons(line: Bytes, lines: seq<Bytes>)
      ensures Replies([line] + lines) == Reply(line) + Replies(lines)
    {
      assert ([line] + lines)[0] == line && ([line] + lines)[1..] == lines;
    }

    lemma {:induction false} RepliesAppend(a: seq<Bytes>, b: seq<Bytes>)
      ensures Replies(a + b) == Replies(a) + Replies(b)
      decreases |a|
    {
      if |a| == 0 {
        assert a + b == b;
      } else {
        assert (a + b)[0] == a[0] && (a + b)[1..] == a[1..] + b;
        RepliesAppend(a[1..], b);
        assert Reply(a[0]) + Replies(a[1..]) + Replies(b) == Reply(a[0]) + (Replies(a[1..]) + Replies(b));
      }
    }

    /**
     * However a client's bytes are cut into chunks, the connection writes the same replies
     * and keeps the same incomplete line: two chunks act as their concatenation.
     */
    lemma ChunkingIsInvisible(pending: Bytes, a: Bytes, b: Bytes)
      ensures var first := Frame(pending + a);
              var second := Frame(first.rest + b);
              Replies(first.lines) + Replies(second.lines) == Replies(Frame(pending + a + b).lines) &&
              second.rest == Frame(pending + a + b).rest
    {
      var first := Frame(pending + a);
      ChunksAreInvisible(pending + a, b);
      RepliesAppend(first.lines, Frame(first.rest + b).lines);
    }
  }
}
