/** Peek-and-replay of a non-2xx response body. A body is a byte stream with a sticky ending, delivered
    in chunks the reader does not control. */
module Non2xxBody {
  import opened Domain

  type Byte = bv8

  const PEEK_BYTES: nat := 4096

  /** How a stream ends: end of file, or an error. */
  datatype Ending = Eof | Error(code: int)

  /** One Read: the bytes delivered, and the ending when it is reported with them. */
  datatype Chunk = Chunk(data: seq<Byte>, ending: Option<Ending>)

  /** The contract of every reader: a Read of some capacity delivers the next bytes, reports the ending
      only after the last byte, and makes progress. */
  ghost predicate Delivers(capacity: nat, before: seq<Byte>, ending: Ending, c: Chunk, after: seq<Byte>) {
    && |c.data| <= capacity && before == c.data + after
    && (c.ending.Some? ==> after == [] && c.ending.value == ending)
    && (capacity > 0 && c.data == [] ==> before == [] && c.ending.Some?)
  }

  /** The body handed over by the transport. Chunk sizes and whether the ending rides along with the last
      bytes are arbitrary functions of the read number. */
  class Body {
    const content: seq<Byte>
    const ending: Ending
    const chunkSize: nat -> nat
    const eagerEnding: nat -> bool
    var pos: nat
    var readCount: nat

    constructor (content: seq<Byte>, ending: Ending, chunkSize: nat -> nat, eagerEnding: nat -> bool)
      ensures Valid() && Remaining() == content && this.ending == ending && fresh(this)
    {
      this.content, this.ending := content, ending;
      this.chunkSize, this.eagerEnding := chunkSize, eagerEnding;
      pos, readCount := 0, 0;
    }

    ghost predicate Valid()
      reads this
    {
      pos <= |content|
    }

    ghost function Remaining(): seq<Byte>
      requires Valid()
      reads this
    {
      content[pos..]
    }

    method Read(capacity: nat) returns (c: Chunk)
      requires Valid()
      modifies this
      ensures Valid() && Delivers(capacity, old(Remaining()), ending, c, Remaining())
      ensures pos == old(pos) + |c.data| && c.data == content[old(pos)..pos]
    {
      var n := Min(Min(capacity, chunkSize(readCount) + 1), |content| - pos);
      var data := content[pos..pos + n];
      var report := pos + n == |content| && (n == 0 || eagerEnding(readCount));
      assert content[pos..] == data + content[pos + n..];
      c := Chunk(data, if report then Some(ending) else None);
      pos, readCount := pos + n, readCount + 1;
    }
  }

  function Min(a: nat, b: nat): nat {
    if a <= b then a else b
  }

  lemma DeliversFromPrefix(capacity: nat, prefix: seq<Byte>, pos: nat, tail: seq<Byte>, ending: Ending)
    requires pos < |prefix|
    ensures var n := Min(capacity, |prefix| - pos);
            var c := Chunk(prefix[pos..pos + n], None);
            Delivers(capacity, prefix[pos..] + tail, ending, c, prefix[pos + n..] + tail)
  {
    var n := Min(capacity, |prefix| - pos);
    assert prefix[pos..] == prefix[pos..pos + n] + prefix[pos + n..];
  }

  /** What follows the replayed prefix: the unread body, or the error the peek ran into. */
  datatype Rest = Unread(body: Body) | Failing(code: int)

  /** The replaced response body: a multi-reader over the buffered prefix and the rest. */
  class PeekedBody {
    const prefix: seq<Byte>
    const rest: Rest
    var pos: nat
    var exhausted: bool

    constructor (prefix: seq<Byte>, rest: Rest)
      requires rest.Unread? ==> rest.body.Valid()
      ensures Valid() && this.prefix == prefix && this.rest == rest && pos == 0 && !exhausted && fresh(this)
    {
      this.prefix, this.rest := prefix, rest;
      pos, exhausted := 0, false;
    }

    ghost function Footprint(): set<object> {
      {this} + if rest.Unread? then {rest.body} else {}
    }

    ghost predicate Valid()
      reads this, if rest.Unread? then {rest.body} else {}
    {
      && pos <= |prefix|
      && (rest.Unread? ==> rest.body.Valid())
      && (exhausted ==> pos == |prefix| && Remaining() == [] && EndingOf() == Eof)
    }

    ghost function Remaining(): seq<Byte>
      requires pos <= |prefix| && (rest.Unread? ==> rest.body.Valid())
      reads this, if rest.Unread? then {rest.body} else {}
    {
      prefix[pos..] + if rest.Unread? then rest.body.Remaining() else []
    }

    ghost function EndingOf(): Ending {
      match rest
      case Unread(body) => body.ending
      case Failing(code) => Error(code)
    }

    /** Read of the multi-reader: the prefix first, then the rest; an exhausted prefix is skipped
        within the same call. */
    method Read(capacity: nat) returns (c: Chunk)
      requires Valid()
      modifies Footprint()
      ensures Valid()
      ensures Delivers(capacity, old(Remaining()), EndingOf(), c, Remaining())
    {
      if exhausted {
        return Chunk([], Some(Eof));
      }
      if pos < |prefix| {
        c := ReadPrefix(capacity);
      } else {
        c := ReadRest(capacity);
      }
    }

    /** The next bytes of the prefix. */
    method ReadPrefix(capacity: nat) returns (c: Chunk)
      requires Valid() && !exhausted && pos < |prefix|
      modifies this
      ensures Valid()
      ensures Delivers(capacity, old(Remaining()), EndingOf(), c, Remaining())
    {
      hide Delivers;
      DeliversFromPrefix(capacity, prefix, pos, if rest.Unread? then rest.body.Remaining() else [], EndingOf());
      var n := Min(capacity, |prefix| - pos);
      c := Chunk(prefix[pos..pos + n], None);
      pos := pos + n;
    }

    /** The next bytes of the rest, once the prefix is used up. */
    method ReadRest(capacity: nat) returns (c: Chunk)
      requires Valid() && !exhausted && pos == |prefix|
      modifies Footprint()
      ensures Valid()
      ensures Delivers(capacity, old(Remaining()), EndingOf(), c, Remaining())
    {
      assert prefix[pos..] == [];
      match rest {
        case Failing(code) =>
          return Chunk([], Some(Error(code)));
        case Unread(body) =>
          EmptyPrefix(body.Remaining());
          c := body.Read(capacity);
          EmptyPrefix(body.Remaining());
          exhausted := c.ending == Some(Eof);
      }
    }
  }

  lemma EmptyPrefix(s: seq<Byte>)
    ensures [] + s == s
  {
  }

  /** io.ReadAll over a reader limited to PEEK_BYTES; room is the buffer space ReadAll offers at each read. */
  method PeekPrefix(body: Body, room: nat -> nat) returns (prefix: seq<Byte>, err: Option<int>)
    requires body.Valid()
    modifies body
    ensures body.Valid() && |prefix| <= PEEK_BYTES && body.pos == old(body.pos) + |prefix|
    ensures prefix == body.content[old(body.pos)..body.pos]
    ensures err.Some? ==> body.Remaining() == [] && body.ending == Error(err.value)
    ensures err.None? && |prefix| < PEEK_BYTES ==> body.Remaining() == [] && body.ending == Eof
  {
    prefix, err := [], None;
    var readCount := 0;
    while |prefix| < PEEK_BYTES
      invariant body.Valid() && |prefix| <= PEEK_BYTES && body.pos == old(body.pos) + |prefix|
      invariant prefix == body.content[old(body.pos)..body.pos]
      decreases PEEK_BYTES - |prefix|
    {
      var c := body.Read(Min(room(readCount) + 1, PEEK_BYTES - |prefix|));
      prefix := prefix + c.data;
      readCount := readCount + 1;
      if c.ending.Some? {
        if c.ending.value.Error? {
          err := Some(c.ending.value.code);
        }
        return;
      }
    }
  }

  /** logNon2xxResponse: a 2xx body is left alone, any other body is replaced. */
  method LogNon2xxResponse(status: int, body: Body, room: nat -> nat) returns (replaced: Option<PeekedBody>)
    requires body.Valid()
    modifies body
    ensures body.Valid()
    ensures 200 <= status <= 299 <==> replaced.None?
    ensures replaced.None? ==> body.pos == old(body.pos)
    ensures replaced.Some? ==> body.pos == old(body.pos) + Min(|old(body.Remaining())|, PEEK_BYTES)
    ensures replaced.Some? ==>
              && fresh(replaced.value) && replaced.value.Valid()
              && replaced.value.Footprint() <= {replaced.value, body}
              && replaced.value.Remaining() == old(body.Remaining())
              && replaced.value.EndingOf() == body.ending
  {
    if 200 <= status <= 299 {
      return None;
    }
    var prefix, err := PeekPrefix(body, room);
    assert body.content[old(body.pos)..] == prefix + body.Remaining();
    var rest := if err.Some? then Failing(err.value) else Unread(body);
    var peeked := new PeekedBody(prefix, rest);
    return Some(peeked);
  }

  /** A read moves bytes from what is owed to what is delivered, and fewer are owed unless it ends. */
  lemma DeliveredSoFar(data: seq<Byte>, owed: seq<Byte>, ending: Ending, capacity: nat, c: Chunk, after: seq<Byte>)
    requires capacity > 0 && Delivers(capacity, owed, ending, c, after)
    ensures data + owed == (data + c.data) + after
    ensures c.ending.None? ==> |after| < |owed|
    ensures c.ending.Some? ==> data + owed == data + c.data && c.ending.value == ending
  {
  }

  /** A caller reading the replaced body to its ending with buffers of any positive size. */
  method Drain(peeked: PeekedBody, capacity: nat -> nat) returns (data: seq<Byte>, ending: Ending)
    requires peeked.Valid()
    modifies peeked.Footprint()
    ensures peeked.Valid()
    ensures data == old(peeked.Remaining()) && ending == peeked.EndingOf()
  {
    hide Delivers, PeekedBody.Remaining;
    data := [];
    var readCount := 0;
    while true
      invariant peeked.Valid()
      invariant old(peeked.Remaining()) == data + peeked.Remaining()
      decreases |peeked.Remaining()|
    {
      ghost var owed := peeked.Remaining();
      var c := peeked.Read(capacity(readCount) + 1);
      DeliveredSoFar(data, owed, peeked.EndingOf(), capacity(readCount) + 1, c, peeked.Remaining());
      data := data + c.data;
      readCount := readCount + 1;
      if c.ending.Some? {
        return data, c.ending.value;
      }
    }
  }

  /** The whole exchange: the caller of a replaced body reads exactly the original bytes and then the
      original ending, however both sides are chunked, and exactly the first 4096 bytes, or all of a
      shorter body, are read in advance. */
  method PeekIsInvisible(content: seq<Byte>, original: Ending, chunkSize: nat -> nat, eagerEnding: nat -> bool,
                         status: int, room: nat -> nat, capacity: nat -> nat)
    returns (data: seq<Byte>, ending: Ending, advance: nat)
    requires !(200 <= status <= 299)
    ensures data == content && ending == original
    ensures advance == if |content| <= 4096 then |content| else 4096
  {
    var body := new Body(content, original, chunkSize, eagerEnding);
    var before := body.pos;
    var replaced := LogNon2xxResponse(status, body, room);
    advance := body.pos - before;
    data, ending := Drain(replaced.value, capacity);
  }
}
