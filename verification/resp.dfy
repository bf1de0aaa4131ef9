/**
 The RESP codec of `src/resp.py`: `Encode` is `serialize` and `Decode` is
 `deserialize`.  The decoder is reproduced as written, including the way an
 array skips over each element: it re-encodes the decoded element and drops
 that many characters, and simple-string and integer frames read up to the
 last two characters of everything that remains.
 */
module Resp {
  import opened Wrappers
  import opened Text

  /** The Python values `serialize` accepts: None, str, int, list and an exception carrying a message. */
  datatype Value = Nil | Str(s: string) | Int(n: int) | Arr(items: seq<Value>) | Err(msg: string)

  /** Why `deserialize` raised. */
  datatype DecodeError =
    | EmptyMessage              // "Empty message"
    | ErrorReply(text: string)  // a '-' frame is re-raised with its text
    | BadInteger(text: string)  // `int()` rejected the text
    | MissingCrlf               // `str.index` found no "\r\n"
    | UnknownType(prefix: char) // "Invalid RESP message"

  /** The character that opens the frame of each kind of value. */
  function Tag(v: Value): char {
    match v
    case Nil => '$'
    case Str(_) => '$'
    case Int(_) => ':'
    case Arr(_) => '*'
    case Err(_) => '-'
  }

  /**
   `serialize`: every frame starts with the character naming its type and
   ends with CRLF.  `RoundTrip` is its partner.
   */
  function Encode(v: Value): (r: string)
    ensures |r| >= 3 && r[|r| - 2] == '\r' && r[|r| - 1] == '\n'
    ensures r[0] == Tag(v)
    decreases v, 1
  {
    match v
    case Nil => "$-1\r\n"
    case Str(s) => "$" + ShowInt(|s|) + "\r\n" + s + "\r\n"
    case Int(n) => ":" + ShowInt(n) + "\r\n"
    case Arr(items) => "*" + ShowInt(|items|) + "\r\n" + EncodeAll(items)
    case Err(m) => "-" + m + "\r\n"
  }

  /** The encodings of `items`, concatenated in order. */
  function EncodeAll(items: seq<Value>): (r: string)
    ensures |r| == 0 <==> |items| == 0
    ensures |r| > 0 ==> |r| >= 3 && r[|r| - 2] == '\r' && r[|r| - 1] == '\n'
    decreases items, 0
  {
    if |items| == 0 then "" else Encode(items[0]) + EncodeAll(items[1..])
  }

  /** A value `deserialize` can return: nothing in it is an exception. */
  ghost predicate NoErr(v: Value)
    decreases v
  {
    match v
    case Err(_) => false
    case Arr(items) => forall i :: 0 <= i < |items| ==> NoErr(items[i])
    case _ => true
  }

  /** The values the round trip is promised for: None, strings and nested lists of them. */
  ghost predicate Plain(v: Value)
    decreases v
  {
    match v
    case Nil => true
    case Str(_) => true
    case Arr(items) => forall i :: 0 <= i < |items| ==> Plain(items[i])
    case _ => false
  }

  /**
   The header of a `$` or `*` frame: the position of the first CRLF and the
   integer between the type character and it.
   */
  function ReadHeader(m: string): (r: Result<(nat, int), DecodeError>)
    ensures r.Success? ==> r.value.0 + 2 <= |m|
    ensures r.Success? ==> FindCrlf(m) == Some(r.value.0) && ReadInt(Slice(m, 1, r.value.0)) == Some(r.value.1)
  {
    match FindCrlf(m)
    case None => Failure(MissingCrlf)
    case Some(i) =>
      match ReadInt(Slice(m, 1, i))
      case None => Failure(BadInteger(Slice(m, 1, i)))
      case Some(n) => Success((i, n))
  }

  /** A `$` frame: None for length -1, otherwise the slice of `length` characters after the header. */
  function DecodeBulk(m: string): (r: Result<Value, DecodeError>)
    ensures r.Failure? <==> ReadHeader(m).Failure?
    ensures r.Failure? ==> r.error == ReadHeader(m).error
    ensures r.Success? ==> r.value.Nil? || r.value.Str?
    ensures r.Success? ==> (r.value.Nil? <==> ReadHeader(m).value.1 == -1)
  {
    var header := ReadHeader(m);
    if header.Failure? then Failure(header.error)
    else
      var (i, len) := header.value;
      if len == -1 then Success(Nil)
      else Success(Str(Slice(m, i + 2, i + 2 + len)))
  }

  function Decode(m: string): (r: Result<Value, DecodeError>)
    ensures r.Success? ==> NoErr(r.value)
    ensures |m| == 0 ==> r == Failure(EmptyMessage)
    ensures r == Failure(EmptyMessage) ==> |m| == 0 || m[0] == '*'
    decreases |m|, 1, 0
  {
    if |m| == 0 then Failure(EmptyMessage)
    else if m[0] == '+' then Success(Str(Slice(m, 1, -2)))
    else if m[0] == '-' then Failure(ErrorReply(Slice(m, 1, -2)))
    else if m[0] == ':' then
      match ReadInt(Slice(m, 1, -2))
      case Some(n) => Success(Int(n))
      case None => Failure(BadInteger(Slice(m, 1, -2)))
    else if m[0] == '$' then DecodeBulk(m)
    else if m[0] == '*' then DecodeArray(m)
    else Failure(UnknownType(m[0]))
  }

  /** A `*` frame: None for count -1, otherwise the elements the array loop decodes after the header. */
  function DecodeArray(m: string): (r: Result<Value, DecodeError>)
    requires |m| > 0 && m[0] == '*'
    ensures r.Success? ==> NoErr(r.value)
    ensures r.Success? ==> r.value.Nil? || r.value.Arr?
    ensures r == Failure(EmptyMessage) ==> ReadHeader(m).Success?
    decreases |m|, 0, 0
  {
    var header := ReadHeader(m);
    if header.Failure? then Failure(header.error)
    else
      var (i, count) := header.value;
      if count == -1 then Success(Nil)
      else
        match DecodeItems(m[i + 2..], count)
        case Success(items) => Success(Arr(items))
        case Failure(e) => Failure(e)
  }

  /**
   The array loop: decode `count` elements from `rest`, dropping
   `len(serialize(element))` characters after each one.
   */
  function DecodeItems(rest: string, count: int): (r: Result<seq<Value>, DecodeError>)
    ensures r.Success? ==> |r.value| == (if count < 0 then 0 else count)
    ensures r.Success? ==> forall i :: 0 <= i < |r.value| ==> NoErr(r.value[i])
    decreases |rest|, 2, if count < 0 then 0 else count
  {
    if count <= 0 then Success([])
    else
      match Decode(rest)
      case Failure(e) => Failure(e)
      case Success(v) =>
        var skip := |Encode(v)|;
        var next := if skip <= |rest| then rest[skip..] else [];
        match DecodeItems(next, count - 1)
        case Failure(e) => Failure(e)
        case Success(items) => Success([v] + items)
  }

  /** The integer frames the server writes as literal text. */
  lemma EncodeSmallInts()
    ensures Encode(Int(0)) == ":0\r\n" && Encode(Int(1)) == ":1\r\n"
    ensures Encode(Int(-1)) == ":-1\r\n" && Encode(Int(-2)) == ":-2\r\n"
    ensures Encode(Arr([])) == "*0\r\n"
  {
    SmallInts();
    assert Encode(Int(0)) == ":" + ShowInt(0) + "\r\n";
    assert Encode(Int(1)) == ":" + ShowInt(1) + "\r\n";
    assert Encode(Int(-1)) == ":" + ShowInt(-1) + "\r\n";
    assert Encode(Int(-2)) == ":" + ShowInt(-2) + "\r\n";
    assert Encode(Arr([])) == "*" + ShowInt(0) + "\r\n" + EncodeAll([]);
  }

  /** A frame header `<c><n>\r\n` ends at its first CRLF, since a rendered integer has no `\r`. */
  lemma HeaderCrlf(c: char, n: int, body: string)
    requires c != '\r'
    ensures FindCrlf([c] + ShowInt(n) + "\r\n" + body) == Some(1 + |ShowInt(n)|)
    ensures ReadHeader([c] + ShowInt(n) + "\r\n" + body) == Success((1 + |ShowInt(n)|, n))
    ensures ([c] + ShowInt(n) + "\r\n" + body)[1 + |ShowInt(n)| + 2..] == body
  {
    var m := [c] + ShowInt(n) + "\r\n" + body;
    var i := 1 + |ShowInt(n)|;
    ShowIntHasNoCr(n);
    assert m[i] == '\r' && m[i + 1] == '\n';
    forall k | 0 <= k < i
      ensures m[k] != '\r'
    {
      if k > 0 {
        assert m[k] == ShowInt(n)[k - 1];
      }
    }
    assert Slice(m, 1, i) == ShowInt(n);
    ReadShowInt(n);
  }

  /** A `$` frame whose header reads `len >= 0` yields the `len` characters after the header. */
  lemma DecodeBulkFrame(n: int, body: string)
    requires n >= 0 && n <= |body|
    ensures Decode(['$'] + ShowInt(n) + "\r\n" + body) == Success(Str(body[..n]))
  {
    var m := ['$'] + ShowInt(n) + "\r\n" + body;
    HeaderCrlf('$', n, body);
    var i := 1 + |ShowInt(n)|;
    BulkTakesAtMostLength(m, i, n);
    assert m[i + 2..] == body;
    assert m[i + 2..i + 2 + n] == body[..n] by {
      assert m[i + 2..i + 2 + n] == m[i + 2..][..n];
    }
  }

  /** A `*` frame whose header reads `count >= 0` yields the elements the array loop finds after the header. */
  lemma DecodeArrayFrame(count: int, body: string)
    requires count >= 0
    ensures DecodeItems(body, count).Success? ==>
      Decode(['*'] + ShowInt(count) + "\r\n" + body) == Success(Arr(DecodeItems(body, count).value))
    ensures DecodeItems(body, count).Failure? ==>
      Decode(['*'] + ShowInt(count) + "\r\n" + body) == Failure(DecodeItems(body, count).error)
  {
    HeaderCrlf('*', count, body);
  }

  /**
   Decoding the encoding of a None, a string or a nested list of them gives
   the value back, whatever text follows it.
   */
  lemma {:induction false} DecodeEncodePrefix(v: Value, tail: string)
    requires Plain(v)
    ensures Decode(Encode(v) + tail) == Success(v)
    decreases v, 1
  {
    match v
    case Nil =>
      HeaderCrlf('$', -1, tail);
      assert Encode(v) + tail == ['$'] + ShowInt(-1) + "\r\n" + tail;
    case Str(s) =>
      var body := s + "\r\n" + tail;
      assert Encode(v) + tail == ['$'] + ShowInt(|s|) + "\r\n" + body;
      DecodeBulkFrame(|s|, body);
      assert body[..|s|] == s;
    case Arr(items) =>
      var body := EncodeAll(items) + tail;
      assert Encode(v) + tail == ['*'] + ShowInt(|items|) + "\r\n" + body;
      forall i | 0 <= i < |items|
        ensures Plain(items[i])
      {
      }
      DecodeItemsEncodeAll(items, tail);
      DecodeArrayFrame(|items|, body);
  }

  lemma {:induction false} DecodeItemsEncodeAll(items: seq<Value>, tail: string)
    requires forall i :: 0 <= i < |items| ==> Plain(items[i])
    ensures DecodeItems(EncodeAll(items) + tail, |items|) == Success(items)
    decreases items, 0
  {
    if |items| > 0 {
      var rest := EncodeAll(items) + tail;
      var after := EncodeAll(items[1..]) + tail;
      assert rest == Encode(items[0]) + after;
      DecodeEncodePrefix(items[0], after);
      assert rest[|Encode(items[0])|..] == after;
      DecodeItemsEncodeAll(items[1..], tail);
      assert [items[0]] + items[1..] == items;
    }
  }

  /** `deserialize(serialize(v)) == v` for None, strings and nested lists of them. */
  lemma RoundTrip(v: Value)
    requires Plain(v)
    ensures Decode(Encode(v)) == Success(v)
  {
    DecodeEncodePrefix(v, "");
    assert Encode(v) + "" == Encode(v);
  }

  /** A standalone integer frame round-trips: its text is everything between ':' and the final CRLF. */
  lemma IntRoundTrip(n: int)
    ensures Decode(Encode(Int(n))) == Success(Int(n))
  {
    var m := Encode(Int(n));
    assert Slice(m, 1, -2) == ShowInt(n);
    ReadShowInt(n);
  }

  /** An error frame fails to decode, carrying exactly the text between '-' and the final CRLF. */
  lemma ErrRaises(text: string)
    ensures Decode(Encode(Err(text))) == Failure(ErrorReply(text))
  {
    var m := Encode(Err(text));
    assert Slice(m, 1, -2) == text;
  }

  /**
   An integer followed by another element inside an array does not
   round-trip: its frame is read up to the last two characters of all that
   remains, which takes in the next element's CRLF, and `int()` rejects it.
   */
  lemma IntBeforeMoreFails(n: int, next: Value)
    ensures Decode(Encode(Arr([Int(n), next]))).Failure?
  {
    var items := [Int(n), next];
    var tail := Encode(next);
    assert items[1..] == [next] && [next][1..] == [];
    assert EncodeAll([next]) == tail + EncodeAll([]);
    var rest := Encode(Int(n)) + tail;
    assert EncodeAll(items) == rest;
    assert Encode(Arr(items)) == ['*'] + ShowInt(2) + "\r\n" + rest;
    IntFollowedFails(n, tail);
    assert DecodeItems(rest, 2).Failure?;
    DecodeArrayFrame(2, rest);
  }

  /**
   An integer frame followed by another frame fails: the CRLF that ends it
   lands inside the text given to `int()`, with the next frame's type
   character after it.  (A tail of one or two characters, or one that starts
   with white space, is a different matter: Python's `int()` strips
   surrounding white space.)
   */
  lemma IntFollowedFails(n: int, tail: string)
    requires |tail| >= 3 && tail[0] in "+-:$*"
    ensures Decode(Encode(Int(n)) + tail).Failure?
  {
    var rest := Encode(Int(n)) + tail;
    assert rest == ":" + ShowInt(n) + "\r\n" + tail;
    var text := Slice(rest, 1, -2);
    var k := |ShowInt(n)|;
    assert text == rest[1..|rest| - 2];
    assert text[k] == '\r';
    assert ReadInt(text) == None;
    DecodeByPrefix(rest);
  }

  /** Which frame decoder `Decode` hands a message to, by its first character. */
  lemma DecodeByPrefix(m: string)
    requires |m| > 0
    ensures m[0] == ':' && ReadInt(Slice(m, 1, -2)).None? ==> Decode(m) == Failure(BadInteger(Slice(m, 1, -2)))
    ensures m[0] == '$' ==> Decode(m) == DecodeBulk(m)
  {
  }

  /** A bulk frame of declared length `len >= 0` yields at most `len` characters, a prefix of what follows the first CRLF. */
  lemma BulkTakesAtMostLength(m: string, i: nat, len: int)
    requires |m| > 0 && m[0] == '$'
    requires ReadHeader(m) == Success((i, len)) && len >= 0
    ensures Decode(m) == Success(Str(Slice(m, i + 2, i + 2 + len)))
    ensures |Decode(m).value.s| <= len
    ensures Decode(m).value.s <= m[i + 2..]
    ensures |Decode(m).value.s| == (if len <= |m| - i - 2 then len else |m| - i - 2)
  {
    var s := Slice(m, i + 2, i + 2 + len);
    DecodeByPrefix(m);
    assert DecodeBulk(m) == Success(Str(s));
    SliceFrom(m, i + 2, len);
  }

  /** `m[start:start + len]` for `0 <= start <= len(m)` and `len >= 0`: at most `len` characters, a prefix of `m[start:]`. */
  lemma SliceFrom(m: string, start: nat, len: nat)
    requires start <= |m|
    ensures Slice(m, start, start + len) <= m[start..]
    ensures |Slice(m, start, start + len)| == (if len <= |m| - start then len else |m| - start)
  {
    if len <= |m| - start {
      assert Slice(m, start, start + len) == m[start..start + len];
    } else {
      assert Slice(m, start, start + len) == m[start..];
    }
  }

  /** The null bulk string and the null array both decode to None. */
  lemma NullFrames()
    ensures Decode("$-1\r\n") == Success(Nil)
    ensures Decode("*-1\r\n") == Success(Nil)
  {
    HeaderCrlf('$', -1, "");
    HeaderCrlf('*', -1, "");
    assert ShowInt(-1) == "-1";
    assert "$-1\r\n" == ['$'] + ShowInt(-1) + "\r\n" + "";
    assert "*-1\r\n" == ['*'] + ShowInt(-1) + "\r\n" + "";
  }

  /** A simple-string frame decodes to the text between '+' and the final CRLF. */
  lemma SimpleString(text: string)
    ensures Decode("+" + text + "\r\n") == Success(Str(text))
  {
    assert Slice("+" + text + "\r\n", 1, -2) == text;
  }

  /** Anything that does not start with one of `+-:$*` is rejected. */
  lemma UnknownPrefix(m: string)
    requires |m| > 0 && m[0] !in "+-:$*"
    ensures Decode(m) == Failure(UnknownType(m[0]))
  {
  }
}
