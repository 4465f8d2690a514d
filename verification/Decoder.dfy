/** internal/bencode/decode.go: the recursive parser, first as a function and then in the source's loops. */
module Decoder {
  import opened Bytes
  import opened Decimal
  import opened KeyOrder
  import opened Value

  const MAX_DECODE_DEPTH := 512

  datatype Reason =
    | DepthExceeded
    | UnexpectedEnd
    | InvalidIdentifier(c: byte)
    | MissingColon
    | BadNumber
    | NegativeLength(n: int)
    | TooLong(n: int)
    | MissingTerminator
    | EmptyInteger
    | LeadingZero
    | NegativeZero
    | Nested(inner: DecodeError)

  datatype DecodeError = DecodeError(position: nat, reason: Reason, context: seq<byte>)

  /** The triple (value, index, error): `next` is the returned index in both cases. */
  datatype Decoded<+T> = Ok(value: T, next: nat) | Err(next: nat, error: DecodeError)

  /** The up to 20 bytes of input shown with an error. */
  function Context(b: seq<byte>, i: nat): seq<byte>
    requires i <= |b|
  {
    b[i..if i + 20 < |b| then i + 20 else |b|]
  }

  function Fail<T>(b: seq<byte>, i: nat, reason: Reason): (r: Decoded<T>)
    requires i <= |b|
    ensures r.Err?
  {
    Err(i, DecodeError(i, reason, Context(b, i)))
  }

  /** A returned index never points past the input, and is the position the error reports. */
  predicate InBounds<T>(r: Decoded<T>, b: seq<byte>, i: nat) {
    match r
    case Ok(_, n) => i < n <= |b|
    case Err(n, e) => n == e.position && (i <= |b| ==> n <= |b|)
  }

  function DecString(b: seq<byte>, i: nat): (r: Decoded<seq<byte>>)
    requires i <= |b|
    ensures InBounds(r, b, i)
  {
    var colon := IndexFrom(b, i, COLON);
    if colon == |b| then Fail(b, i, MissingColon)
    else
      match Atoi(b[i..colon])
      case None => Fail(b, i, BadNumber)
      case Some(n) =>
        if n < 0 then Fail(b, i, NegativeLength(n))
        else if n > |b| || colon + 1 + n > |b| then Fail(b, i, TooLong(n))
        else Ok(b[colon + 1..colon + 1 + n], colon + 1 + n)
  }

  function DecInt(b: seq<byte>, i: nat): (r: Decoded<Value>)
    requires i < |b| && b[i] == CHAR_I
    ensures InBounds(r, b, i)
  {
    var end := IndexFrom(b, i, CHAR_E);
    if end == |b| then Fail(b, i, MissingTerminator)
    else
      var num := b[i + 1..end];
      if num == [] then Fail(b, i, EmptyInteger)
      else if |num| > 1 && num[0] == 48 then Fail(b, i, LeadingZero)
      else if num == [MINUS, 48] then Fail(b, i, NegativeZero)
      else
        match Atoi(num)
        case None => Fail(b, i, BadNumber)
        case Some(n) => Ok(Int(n), end + 1)
  }

  function Left(b: seq<byte>, i: nat): nat {
    if i <= |b| then |b| - i else 0
  }

  /** `decodeAtDepth`. The depth is any `int`, as in the source. */
  function DecValue(b: seq<byte>, i: nat, depth: int): (r: Decoded<Value>)
    ensures InBounds(r, b, i)
    decreases Left(b, i), 0
  {
    if depth > MAX_DECODE_DEPTH then Err(i, DecodeError(i, DepthExceeded, []))
    else if i >= |b| then Err(i, DecodeError(i, UnexpectedEnd, []))
    else if IsDigit(b[i]) then
      match DecString(b, i)
      case Ok(s, n) => Ok(TextOf(s), n)
      case Err(n, e) => Err(n, e)
    else if b[i] == CHAR_I then DecInt(b, i)
    else if b[i] == CHAR_L then DecItems(b, i, i + 1, depth, [])
    else if b[i] == CHAR_D then DecEntries(b, i, i + 1, depth, map[])
    else Fail(b, i, InvalidIdentifier(b[i]))
  }

  /** The loop of `decodeList` from offset `i` on, with `acc` already decoded. */
  function DecItems(b: seq<byte>, start: nat, i: nat, depth: int, acc: seq<Value>): (r: Decoded<Value>)
    requires start < i <= |b|
    ensures InBounds(r, b, start) && (r.Ok? ==> i < r.next)
    decreases Left(b, i), 1
  {
    if i == |b| then Fail(b, start, MissingTerminator)
    else if b[i] == CHAR_E then Ok(List(acc), i + 1)
    else
      match DecValue(b, i, depth + 1)
      case Err(_, e) => Fail(b, start, Nested(e))
      case Ok(v, n) => DecItems(b, start, n, depth, acc + [v])
  }

  /** The loop of `decodeDict` from offset `i` on, with `acc` already decoded. */
  function DecEntries(b: seq<byte>, start: nat, i: nat, depth: int, acc: map<Key, Value>): (r: Decoded<Value>)
    requires start < i <= |b|
    ensures InBounds(r, b, start) && (r.Ok? ==> i < r.next)
    decreases Left(b, i), 1
  {
    if i == |b| then Fail(b, start, MissingTerminator)
    else if b[i] == CHAR_E then Ok(Dict(acc), i + 1)
    else
      match DecString(b, i)
      case Err(n, e) => Fail(b, n, Nested(e))
      case Ok(k, n) =>
        match DecValue(b, n, depth + 1)
        case Err(m, e) => Fail(b, m, Nested(e))
        case Ok(v, m) => DecEntries(b, start, m, depth, acc[k := v])
  }

  /** One round of the `decodeList` loop. */
  lemma ItemsRound(b: seq<byte>, start: nat, i: nat, depth: int, acc: seq<Value>)
    requires start < i <= |b|
    ensures var all := DecItems(b, start, i, depth, acc);
            if i == |b| then all == Fail(b, start, MissingTerminator)
            else if b[i] == CHAR_E then all == Ok(List(acc), i + 1)
            else
              var r := DecValue(b, i, depth + 1);
              if r.Err? then all == Fail(b, start, Nested(r.error))
              else i < r.next <= |b| && all == DecItems(b, start, r.next, depth, acc + [r.value])
    ensures var all := DecItems(b, start, i, depth, acc); all.Ok? ==> i < all.next <= |b|
  {
  }

  /** One round of the `decodeDict` loop. */
  lemma EntriesRound(b: seq<byte>, start: nat, i: nat, depth: int, acc: map<Key, Value>)
    requires start < i <= |b|
    ensures var all := DecEntries(b, start, i, depth, acc);
            if i == |b| then all == Fail(b, start, MissingTerminator)
            else if b[i] == CHAR_E then all == Ok(Dict(acc), i + 1)
            else
              var key := DecString(b, i);
              if key.Err? then key.next <= |b| && all == Fail(b, key.next, Nested(key.error))
              else
                var r := DecValue(b, key.next, depth + 1);
                && i < key.next <= |b|
                && if r.Err? then r.next <= |b| && all == Fail(b, r.next, Nested(r.error))
                   else key.next < r.next <= |b| && all == DecEntries(b, start, r.next, depth, acc[key.value := r.value])
    ensures var all := DecEntries(b, start, i, depth, acc); all.Ok? ==> i < all.next <= |b|
  {
  }

  // ----- The source's methods -----

  method Decode(b: seq<byte>) returns (r: Decoded<Value>)
    ensures r == DecValue(b, 0, 0)
  {
    r := DecodeAtDepth(b, 0, 0);
  }

  method DecodeAtDepth(b: seq<byte>, index: nat, depth: int) returns (r: Decoded<Value>)
    ensures r == DecValue(b, index, depth)
    decreases Left(b, index), 0
  {
    if depth > MAX_DECODE_DEPTH {
      return Err(index, DecodeError(index, DepthExceeded, []));
    }
    if index >= |b| {
      return Err(index, DecodeError(index, UnexpectedEnd, []));
    }
    var identifier := b[index];
    if IsDigit(identifier) {
      var s := DecodeString(b, index);
      match s {
        case Err(n, e) => r := Err(n, e);
        case Ok(text, n) => r := Ok(if Utf8Valid(text) then Str(text) else Raw(text), n);
      }
    } else if identifier == CHAR_I {
      r := DecodeInt(b, index);
    } else if identifier == CHAR_L {
      r := DecodeList(b, index, depth);
    } else if identifier == CHAR_D {
      r := DecodeDict(b, index, depth);
    } else {
      r := Fail(b, index, InvalidIdentifier(identifier));
    }
  }

  method DecodeString(b: seq<byte>, index: nat) returns (r: Decoded<seq<byte>>)
    requires index <= |b|
    ensures r == DecString(b, index)
  {
    var firstColon := -1;
    var i := index;
    while i < |b|
      invariant index <= i <= |b|
      invariant firstColon == -1
      invariant IndexFrom(b, index, COLON) == IndexFrom(b, i, COLON)
    {
      if b[i] == COLON {
        firstColon := i;
        break;
      }
      i := i + 1;
    }
    if firstColon == -1 {
      return Fail(b, index, MissingColon);
    }
    var length := Atoi(b[index..firstColon]);
    if length.None? {
      return Fail(b, index, BadNumber);
    }
    var n := length.value;
    if n < 0 {
      return Fail(b, index, NegativeLength(n));
    }
    if n > |b| {
      return Fail(b, index, TooLong(n));
    }
    var endIndex := firstColon + 1 + n;
    if endIndex > |b| {
      return Fail(b, index, TooLong(n));
    }
    r := Ok(b[firstColon + 1..endIndex], endIndex);
  }

  method DecodeInt(b: seq<byte>, index: nat) returns (r: Decoded<Value>)
    requires index < |b| && b[index] == CHAR_I
    ensures r == DecInt(b, index)
  {
    var i := index;
    while i < |b| && b[i] != CHAR_E
      invariant index <= i <= |b|
      invariant IndexFrom(b, index, CHAR_E) == IndexFrom(b, i, CHAR_E)
    {
      i := i + 1;
    }
    if i >= |b| {
      return Fail(b, index, MissingTerminator);
    }
    var num := b[index + 1..i];
    if num == [] {
      return Fail(b, index, EmptyInteger);
    }
    if |num| > 1 && num[0] == 48 {
      return Fail(b, index, LeadingZero);
    }
    if num == [MINUS, 48] {
      return Fail(b, index, NegativeZero);
    }
    var n := Atoi(num);
    if n.None? {
      return Fail(b, index, BadNumber);
    }
    i := i + 1;
    r := Ok(Int(n.value), i);
  }

  method DecodeList(b: seq<byte>, index: nat, depth: int) returns (r: Decoded<Value>)
    requires index < |b|
    ensures r == DecItems(b, index, index + 1, depth, [])
    decreases Left(b, index + 1), 1
  {
    hide DecValue, DecItems, DecEntries, DecString;
    var items: seq<Value> := [];
    var i := index + 1;
    while true
      invariant index < i <= |b|
      invariant DecItems(b, index, index + 1, depth, []) == DecItems(b, index, i, depth, items)
      decreases |b| - i
    {
      ItemsRound(b, index, i, depth, items);
      if i >= |b| {
        return Fail(b, index, MissingTerminator);
      }
      if b[i] == CHAR_E {
        i := i + 1;
        break;
      }
      var val := DecodeAtDepth(b, i, depth + 1);
      if val.Err? {
        return Fail(b, index, Nested(val.error));
      }
      i := val.next;
      items := items + [val.value];
    }
    r := Ok(List(items), i);
  }

  method DecodeDict(b: seq<byte>, index: nat, depth: int) returns (r: Decoded<Value>)
    requires index < |b|
    ensures r == DecEntries(b, index, index + 1, depth, map[])
    decreases Left(b, index + 1), 1
  {
    hide DecValue, DecItems, DecEntries, DecString;
    var entries: map<Key, Value> := map[];
    var i := index + 1;
    while true
      invariant index < i <= |b|
      invariant DecEntries(b, index, index + 1, depth, map[]) == DecEntries(b, index, i, depth, entries)
      decreases |b| - i
    {
      EntriesRound(b, index, i, depth, entries);
      if i >= |b| {
        return Fail(b, index, MissingTerminator);
      }
      if b[i] == CHAR_E {
        i := i + 1;
        break;
      }
      var key := DecodeString(b, i);
      i := key.next;
      if key.Err? {
        return Fail(b, i, Nested(key.error));
      }
      var val := DecodeAtDepth(b, i, depth + 1);
      i := val.next;
      if val.Err? {
        return Fail(b, i, Nested(val.error));
      }
      entries := entries[key.value := val.value];
    }
    r := Ok(Dict(entries), i);
  }
}
