/** The tagged JSON codec of src/harness/sut_process.py: bytes travel as a one-key object. */
module Codec {
  import opened Wrappers
  import opened Varints

  const BYTES_TAG := "__bytes__"

  /** A Python value that the channel carries.  A dict is its entries, with distinct string keys. */
  datatype Value =
    | Null
    | Bool(b: bool)
    | Num(n: int)
    | Str(s: string)
    | Bytes(bytes: seq<byte>)
    | List(items: seq<Value>)
    | Tuple(elements: seq<Value>)
    | Dict(entries: seq<Entry>)

  datatype Entry = Entry(key: string, value: Value)

  datatype CodecError = NotHex

  // ---- hexadecimal ----

  function HexDigit(n: nat): char
    requires n < 16
  {
    if n < 10 then ('0' as int + n) as char else ('a' as int + (n - 10)) as char
  }

  function DigitValue(c: char): (r: Option<nat>)
    ensures r.Some? ==> r.value < 16
  {
    if '0' <= c <= '9' then Some(c as int - '0' as int)
    else if 'a' <= c <= 'f' then Some(c as int - 'a' as int + 10)
    else if 'A' <= c <= 'F' then Some(c as int - 'A' as int + 10)
    else None
  }

  function ToHex(bytes: seq<byte>): string {
    if bytes == [] then "" else [HexDigit(bytes[0] / 16), HexDigit(bytes[0] % 16)] + ToHex(bytes[1..])
  }

  predicate IsSpace(c: char) {
    c == ' ' || ('\t' <= c <= '\r')
  }

  /** `bytes.fromhex`: pairs of digits of either case, whitespace allowed between bytes. */
  function FromHex(s: string): (r: Result<seq<byte>, CodecError>) {
    if s == "" then Success([])
    else if IsSpace(s[0]) then FromHex(s[1..])
    else if |s| < 2 || DigitValue(s[0]).None? || DigitValue(s[1]).None? then Failure(NotHex)
    else
      var rest :- FromHex(s[2..]);
      Success([DigitValue(s[0]).value * 16 + DigitValue(s[1]).value] + rest)
  }

  lemma DigitReadsBack(n: nat)
    requires n < 16
    ensures DigitValue(HexDigit(n)) == Some(n) && !IsSpace(HexDigit(n))
  {
  }

  lemma ByteReadsBack(b: byte, tail: string, rest: seq<byte>)
    requires FromHex(tail) == Success(rest)
    ensures FromHex([HexDigit(b / 16), HexDigit(b % 16)] + tail) == Success([b] + rest)
  {
    var s := [HexDigit(b / 16), HexDigit(b % 16)] + tail;
    DigitReadsBack(b / 16);
    DigitReadsBack(b % 16);
    assert s[2..] == tail;
  }

  lemma {:induction false} HexRoundTrip(bytes: seq<byte>)
    ensures FromHex(ToHex(bytes)) == Success(bytes)
  {
    if bytes != [] {
      HexRoundTrip(bytes[1..]);
      ByteReadsBack(bytes[0], ToHex(bytes[1..]), bytes[1..]);
      assert [bytes[0]] + bytes[1..] == bytes;
    }
  }

  // ---- encode and decode ----

  function Encode(v: Value): (r: Value)
    decreases v, 1
  {
    match v
    case Bytes(b) => Dict([Entry(BYTES_TAG, Str(ToHex(b)))])
    case Dict(entries) => Dict(EncodeEntries(entries))
    case List(items) => List(EncodeItems(items))
    case Tuple(items) => List(EncodeItems(items))
    case _ => v
  }

  function EncodeItems(items: seq<Value>): (r: seq<Value>)
    ensures |r| == |items|
    decreases items, 0
  {
    if items == [] then [] else [Encode(items[0])] + EncodeItems(items[1..])
  }

  function EncodeEntries(entries: seq<Entry>): (r: seq<Entry>)
    ensures |r| == |entries|
    decreases entries, 0
  {
    if entries == [] then [] else [Entry(entries[0].key, Encode(entries[0].value))] + EncodeEntries(entries[1..])
  }

  /** A dict that decoding takes for bytes. */
  predicate LooksLikeBytes(entries: seq<Entry>) {
    |entries| == 1 && entries[0].key == BYTES_TAG && entries[0].value.Str?
  }

  function Decode(v: Value): (r: Result<Value, CodecError>)
    decreases v, 1
  {
    match v
    case Dict(entries) =>
      if LooksLikeBytes(entries) then
        var b :- FromHex(entries[0].value.s);
        Success(Bytes(b))
      else
        var decoded :- DecodeEntries(entries);
        Success(Dict(decoded))
    case List(items) =>
      var decoded :- DecodeItems(items);
      Success(List(decoded))
    case _ => Success(v)
  }

  function DecodeItems(items: seq<Value>): (r: Result<seq<Value>, CodecError>)
    decreases items, 0
  {
    if items == [] then Success([])
    else
      var first :- Decode(items[0]);
      var rest :- DecodeItems(items[1..]);
      Success([first] + rest)
  }

  function DecodeEntries(entries: seq<Entry>): (r: Result<seq<Entry>, CodecError>)
    decreases entries, 0
  {
    if entries == [] then Success([])
    else
      var first :- Decode(entries[0].value);
      var rest :- DecodeEntries(entries[1..]);
      Success([Entry(entries[0].key, first)] + rest)
  }

  /** The value with every tuple read as a list: what JSON can tell apart. */
  function Listed(v: Value): (r: Value)
    decreases v, 1
  {
    match v
    case Dict(entries) => Dict(ListedEntries(entries))
    case List(items) => List(ListedItems(items))
    case Tuple(items) => List(ListedItems(items))
    case _ => v
  }

  function ListedItems(items: seq<Value>): (r: seq<Value>)
    ensures |r| == |items|
    decreases items, 0
  {
    if items == [] then [] else [Listed(items[0])] + ListedItems(items[1..])
  }

  function ListedEntries(entries: seq<Entry>): (r: seq<Entry>)
    ensures |r| == |entries|
    decreases entries, 0
  {
    if entries == [] then [] else [Entry(entries[0].key, Listed(entries[0].value))] + ListedEntries(entries[1..])
  }

  /** No dict anywhere in the value looks like an encoded byte string. */
  predicate Unambiguous(v: Value)
    decreases v, 1
  {
    match v
    case Dict(entries) => !LooksLikeBytes(entries) && UnambiguousEntries(entries)
    case List(items) => UnambiguousItems(items)
    case Tuple(items) => UnambiguousItems(items)
    case _ => true
  }

  predicate UnambiguousItems(items: seq<Value>)
    decreases items, 0
  {
    items == [] || (Unambiguous(items[0]) && UnambiguousItems(items[1..]))
  }

  predicate UnambiguousEntries(entries: seq<Entry>)
    decreases entries, 0
  {
    entries == [] || (Unambiguous(entries[0].value) && UnambiguousEntries(entries[1..]))
  }

  /** Encoded values hold nothing JSON cannot carry. */
  predicate IsJson(v: Value)
    decreases v, 1
  {
    match v
    case Bytes(_) => false
    case Tuple(_) => false
    case Dict(entries) => AllJsonEntries(entries)
    case List(items) => AllJson(items)
    case _ => true
  }

  predicate AllJson(items: seq<Value>)
    decreases items, 0
  {
    items == [] || (IsJson(items[0]) && AllJson(items[1..]))
  }

  predicate AllJsonEntries(entries: seq<Entry>)
    decreases entries, 0
  {
    entries == [] || (IsJson(entries[0].value) && AllJsonEntries(entries[1..]))
  }

  lemma {:induction false} EncodedIsJson(v: Value)
    ensures IsJson(Encode(v))
    decreases v, 1
  {
    match v
    case Bytes(b) =>
      var entries := [Entry(BYTES_TAG, Str(ToHex(b)))];
      assert entries[1..] == [] && IsJson(entries[0].value);
    case Dict(entries) => EncodedEntriesAreJson(entries);
    case List(items) => EncodedItemsAreJson(items);
    case Tuple(items) => EncodedItemsAreJson(items);
    case _ =>
  }

  lemma {:induction false} EncodedItemsAreJson(items: seq<Value>)
    ensures AllJson(EncodeItems(items))
    decreases items, 0
  {
    if items != [] {
      EncodedIsJson(items[0]);
      EncodedItemsAreJson(items[1..]);
      assert EncodeItems(items)[1..] == EncodeItems(items[1..]);
    }
  }

  lemma {:induction false} EncodedEntriesAreJson(entries: seq<Entry>)
    ensures AllJsonEntries(EncodeEntries(entries))
    decreases entries, 0
  {
    if entries != [] {
      EncodedIsJson(entries[0].value);
      EncodedEntriesAreJson(entries[1..]);
      assert EncodeEntries(entries)[1..] == EncodeEntries(entries[1..]);
    }
  }

  lemma EncodeKeepsTheLook(entries: seq<Entry>)
    ensures LooksLikeBytes(EncodeEntries(entries)) <==> LooksLikeBytes(entries)
  {
    if |entries| == 1 {
      assert EncodeEntries(entries)[0] == Entry(entries[0].key, Encode(entries[0].value));
    }
  }

  /** The codec gives back what went in exactly when nothing in it could be mistaken for bytes. */
  lemma {:induction false} RoundTrip(v: Value)
    ensures Decode(Encode(v)) == Success(Listed(v)) <==> Unambiguous(v)
    decreases v, 1
  {
    match v
    case Bytes(b) =>
      HexRoundTrip(b);
    case Dict(entries) =>
      EncodeKeepsTheLook(entries);
      RoundTripEntries(entries);
    case List(items) => RoundTripItems(items);
    case Tuple(items) => RoundTripItems(items);
    case _ =>
  }

  lemma {:induction false} RoundTripItems(items: seq<Value>)
    ensures DecodeItems(EncodeItems(items)) == Success(ListedItems(items)) <==> UnambiguousItems(items)
    decreases items, 0
  {
    if items != [] {
      RoundTrip(items[0]);
      RoundTripItems(items[1..]);
      var encoded := EncodeItems(items);
      assert encoded[1..] == EncodeItems(items[1..]);
      ConsResult(Decode(encoded[0]), DecodeItems(encoded[1..]), DecodeItems(encoded),
                 Listed(items[0]), ListedItems(items[1..]));
    }
  }

  lemma ConsResult<T>(
    first: Result<T, CodecError>, rest: Result<seq<T>, CodecError>, all: Result<seq<T>, CodecError>, x: T, xs: seq<T>)
    requires all.Success? <==> first.Success? && rest.Success?
    requires all.Success? ==> all.value == [first.value] + rest.value
    ensures all == Success([x] + xs) <==> first == Success(x) && rest == Success(xs)
  {
    if all == Success([x] + xs) {
      assert ([first.value] + rest.value)[0] == ([x] + xs)[0];
      assert ([first.value] + rest.value)[1..] == ([x] + xs)[1..];
      assert ([first.value] + rest.value)[1..] == rest.value && ([x] + xs)[1..] == xs;
    }
  }

  lemma {:induction false} RoundTripEntries(entries: seq<Entry>)
    ensures DecodeEntries(EncodeEntries(entries)) == Success(ListedEntries(entries)) <==> UnambiguousEntries(entries)
    decreases entries, 0
  {
    if entries != [] {
      RoundTrip(entries[0].value);
      RoundTripEntries(entries[1..]);
      var encoded := EncodeEntries(entries);
      assert encoded[1..] == EncodeEntries(entries[1..]);
      var name := entries[0].key;
      var first := Decode(encoded[0].value);
      ConsResult(if first.Success? then Success(Entry(name, first.value)) else Failure(first.error),
                 DecodeEntries(encoded[1..]), DecodeEntries(encoded),
                 Entry(name, Listed(entries[0].value)), ListedEntries(entries[1..]));
    }
  }

  lemma {:induction false} EncodeForgetsTuples(v: Value)
    ensures Encode(Listed(v)) == Encode(v)
    decreases v, 1
  {
    match v
    case Dict(entries) => EncodeForgetsTuplesInEntries(entries);
    case List(items) => EncodeForgetsTuplesInItems(items);
    case Tuple(items) => EncodeForgetsTuplesInItems(items);
    case _ =>
  }

  lemma {:induction false} EncodeForgetsTuplesInItems(items: seq<Value>)
    ensures EncodeItems(ListedItems(items)) == EncodeItems(items)
    decreases items, 0
  {
    if items != [] {
      EncodeForgetsTuples(items[0]);
      EncodeForgetsTuplesInItems(items[1..]);
      assert ListedItems(items)[1..] == ListedItems(items[1..]);
    }
  }

  lemma {:induction false} EncodeForgetsTuplesInEntries(entries: seq<Entry>)
    ensures EncodeEntries(ListedEntries(entries)) == EncodeEntries(entries)
    decreases entries, 0
  {
    if entries != [] {
      EncodeForgetsTuples(entries[0].value);
      EncodeForgetsTuplesInEntries(entries[1..]);
      assert ListedEntries(entries)[1..] == ListedEntries(entries[1..]);
    }
  }

  /** What the other side re-encodes after decoding is the message it received. */
  lemma EncodingIsStable(v: Value)
    requires Unambiguous(v)
    ensures Decode(Encode(v)).Success? && Encode(Decode(Encode(v)).value) == Encode(v)
  {
    RoundTrip(v);
    EncodeForgetsTuples(v);
  }

  // ---- exactly which messages are stable ----

  predicate IsLowerHexDigit(c: char) {
    '0' <= c <= '9' || 'a' <= c <= 'f'
  }

  /** What `bytes.hex` writes: pairs of lower-case digits and nothing between them. */
  predicate IsLowerHex(s: string) {
    |s| % 2 == 0 && forall i :: 0 <= i < |s| ==> IsLowerHexDigit(s[i])
  }

  lemma {:induction false} HexIsLower(bytes: seq<byte>)
    ensures IsLowerHex(ToHex(bytes))
  {
    if bytes != [] {
      HexIsLower(bytes[1..]);
    }
  }

  lemma {:induction false} LowerHexReadsBack(s: string)
    requires IsLowerHex(s)
    ensures FromHex(s).Success? && ToHex(FromHex(s).value) == s
  {
    if s != "" {
      assert IsLowerHexDigit(s[0]) && IsLowerHexDigit(s[1]);
      LowerHexReadsBack(s[2..]);
      var high, low := DigitValue(s[0]).value, DigitValue(s[1]).value;
      var rest := FromHex(s[2..]).value;
      assert FromHex(s).value == [high * 16 + low] + rest;
      assert ([high * 16 + low] + rest)[1..] == rest;
      assert (high * 16 + low) / 16 == high && (high * 16 + low) % 16 == low;
      assert HexDigit(high) == s[0] && HexDigit(low) == s[1];
      assert s == [s[0], s[1]] + s[2..];
    }
  }

  /** Reading a hexadecimal string and writing it again gives it back exactly when it is written that way. */
  lemma HexIsStable(s: string)
    ensures FromHex(s).Success? && ToHex(FromHex(s).value) == s <==> IsLowerHex(s)
  {
    if IsLowerHex(s) {
      LowerHexReadsBack(s);
    } else if FromHex(s).Success? {
      HexIsLower(FromHex(s).value);
    }
  }

  /** Every dict anywhere in the value that looks like an encoded byte string is written like one. */
  predicate Canonical(v: Value)
    decreases v, 1
  {
    match v
    case Dict(entries) =>
      if LooksLikeBytes(entries) then IsLowerHex(entries[0].value.s) else CanonicalEntries(entries)
    case List(items) => CanonicalItems(items)
    case Tuple(items) => CanonicalItems(items)
    case _ => true
  }

  predicate CanonicalItems(items: seq<Value>)
    decreases items, 0
  {
    items == [] || (Canonical(items[0]) && CanonicalItems(items[1..]))
  }

  predicate CanonicalEntries(entries: seq<Entry>)
    decreases entries, 0
  {
    entries == [] || (Canonical(entries[0].value) && CanonicalEntries(entries[1..]))
  }

  /** What the other side re-encodes after decoding is the message it received. */
  predicate Stable(v: Value) {
    Decode(Encode(v)).Success? && Encode(Decode(Encode(v)).value) == Encode(v)
  }

  predicate StableItems(items: seq<Value>) {
    DecodeItems(EncodeItems(items)).Success? && EncodeItems(DecodeItems(EncodeItems(items)).value) == EncodeItems(items)
  }

  predicate StableEntries(entries: seq<Entry>) {
    && DecodeEntries(EncodeEntries(entries)).Success?
    && EncodeEntries(DecodeEntries(EncodeEntries(entries)).value) == EncodeEntries(entries)
  }

  /** For every value: its message is stable exactly when every dict in it that looks like bytes holds lower-case
      hexadecimal without spaces. */
  lemma {:induction false} StableExactly(v: Value)
    ensures Stable(v) <==> Canonical(v)
    decreases v, 1
  {
    match v
    case Bytes(b) => BytesAreStable(b);
    case Dict(entries) =>
      if LooksLikeBytes(entries) {
        LookAlikeIsStable(entries);
      } else {
        StableEntriesExactly(entries);
        DictIsStable(entries);
      }
    case List(items) =>
      StableItemsExactly(items);
      ListIsStable(items, v);
    case Tuple(items) =>
      StableItemsExactly(items);
      ListIsStable(items, v);
    case _ =>
  }

  lemma BytesAreStable(b: seq<byte>)
    ensures Stable(Bytes(b))
  {
    HexRoundTrip(b);
  }

  lemma DictIsStable(entries: seq<Entry>)
    requires !LooksLikeBytes(entries)
    ensures Stable(Dict(entries)) <==> StableEntries(entries)
  {
    EncodeKeepsTheLook(entries);
  }

  lemma ListIsStable(items: seq<Value>, v: Value)
    requires v == List(items) || v == Tuple(items)
    ensures Stable(v) <==> StableItems(items)
  {
    assert Encode(v) == List(EncodeItems(items));
  }

  lemma LookAlikeIsStable(entries: seq<Entry>)
    requires LooksLikeBytes(entries)
    ensures Stable(Dict(entries)) <==> IsLowerHex(entries[0].value.s)
  {
    var s := entries[0].value.s;
    HexIsStable(s);
    EncodeKeepsTheLook(entries);
    assert EncodeEntries(entries) == [Entry(BYTES_TAG, Str(s))];
    if FromHex(s).Success? {
      var again := ToHex(FromHex(s).value);
      assert Encode(Decode(Encode(Dict(entries))).value) == Dict([Entry(BYTES_TAG, Str(again))]);
      assert [Entry(BYTES_TAG, Str(again))][0] == Entry(BYTES_TAG, Str(again));
    }
  }

  lemma {:induction false} StableItemsExactly(items: seq<Value>)
    ensures StableItems(items) <==> CanonicalItems(items)
    decreases items, 0
  {
    if items != [] {
      StableExactly(items[0]);
      StableItemsExactly(items[1..]);
      var encoded, rest := EncodeItems(items), EncodeItems(items[1..]);
      assert encoded[0] == Encode(items[0]) && encoded[1..] == rest;
      if Decode(encoded[0]).Success? && DecodeItems(rest).Success? {
        var x, xs := Decode(encoded[0]).value, DecodeItems(rest).value;
        assert ([x] + xs)[0] == x && ([x] + xs)[1..] == xs;
        SameCons(Encode(x), EncodeItems(xs), encoded[0], rest);
      }
    }
  }

  lemma SameCons<T>(x: T, xs: seq<T>, y: T, ys: seq<T>)
    ensures [x] + xs == [y] + ys <==> x == y && xs == ys
  {
    assert ([x] + xs)[0] == x && ([x] + xs)[1..] == xs;
    assert ([y] + ys)[0] == y && ([y] + ys)[1..] == ys;
  }

  lemma {:induction false} StableEntriesExactly(entries: seq<Entry>)
    ensures StableEntries(entries) <==> CanonicalEntries(entries)
    decreases entries, 0
  {
    if entries != [] {
      StableExactly(entries[0].value);
      StableEntriesExactly(entries[1..]);
      var name := entries[0].key;
      var encoded, rest := EncodeEntries(entries), EncodeEntries(entries[1..]);
      assert encoded[0] == Entry(name, Encode(entries[0].value)) && encoded[1..] == rest;
      if Decode(encoded[0].value).Success? && DecodeEntries(rest).Success? {
        var x, xs := Decode(encoded[0].value).value, DecodeEntries(rest).value;
        assert ([Entry(name, x)] + xs)[0] == Entry(name, x) && ([Entry(name, x)] + xs)[1..] == xs;
        SameCons(Entry(name, Encode(x)), EncodeEntries(xs), encoded[0], rest);
      }
    }
  }

  /** An upper-case look-alike comes back in lower case. */
  lemma UpperCaseIsNotStable(s: string)
    requires s == "AB"
    ensures FromHex(s).Success? && !Stable(Dict([Entry(BYTES_TAG, Str(s))]))
  {
    assert !IsLowerHexDigit(s[0]);
    LookAlikeIsStable([Entry(BYTES_TAG, Str(s))]);
    assert s[2..] == "";
  }

  // ---- reading hexadecimal ----

  lemma BytesTravelAs(b: seq<byte>)
    ensures Encode(Bytes(b)) == Dict([Entry("__bytes__", Str(ToHex(b)))])
    ensures Decode(Dict([Entry("__bytes__", Str(ToHex(b)))])) == Success(Bytes(b))
  {
    HexRoundTrip(b);
  }

  function SmallLetter(c: char): char {
    if 'A' <= c <= 'F' then (c as int + 32) as char else c
  }

  function InSmallLetters(s: string): string {
    seq(|s|, i requires 0 <= i < |s| => SmallLetter(s[i]))
  }

  /** ASCII white space as Python's `bytes.fromhex` skips it. */
  predicate Blank(c: char) {
    c in {' ', '\t', '\n', 11 as char, 12 as char, '\r'}
  }

  /** Pairs of digits of either case, with white space before, between and behind the pairs. */
  predicate IsHexText(s: string) {
    if s == "" then true
    else if Blank(s[0]) then IsHexText(s[1..])
    else |s| >= 2 && IsHexDigit(s[0]) && IsHexDigit(s[1]) && IsHexText(s[2..])
  }

  predicate IsHexDigit(c: char) {
    '0' <= c <= '9' || 'a' <= c <= 'f' || 'A' <= c <= 'F'
  }

  /** Without its white space. */
  function Squeezed(s: string): string {
    if s == "" then ""
    else if Blank(s[0]) then Squeezed(s[1..]) else [s[0]] + Squeezed(s[1..])
  }

  /** A text is read exactly when it is pairs of digits with white space around them, and reads as what `bytes.hex`
      writes of it in small letters without the white space. */
  lemma {:induction false} HexTextIsRead(s: string)
    ensures FromHex(s).Success? <==> IsHexText(s)
    ensures FromHex(s).Success? ==> ToHex(FromHex(s).value) == InSmallLetters(Squeezed(s))
    decreases |s|
  {
    if s != "" {
      if Blank(s[0]) {
        HexTextIsRead(s[1..]);
      } else if |s| >= 2 {
        HexTextIsRead(s[2..]);
        if IsHexDigit(s[0]) && IsHexDigit(s[1]) && IsHexText(s[2..]) {
          PairIsRead(s, s[2..]);
        }
      }
    }
  }

  lemma DigitIsRead(c: char)
    requires IsHexDigit(c)
    ensures DigitValue(c).Some? && HexDigit(DigitValue(c).value) == SmallLetter(c) && !Blank(c) && !IsSpace(c)
  {
  }

  lemma SqueezedPair(s: string, t: string)
    requires |s| >= 2 && !Blank(s[0]) && !Blank(s[1]) && t == s[2..]
    ensures InSmallLetters(Squeezed(s)) == [SmallLetter(s[0]), SmallLetter(s[1])] + InSmallLetters(Squeezed(t))
  {
    var u := s[1..];
    assert u[0] == s[1] && u[1..] == t;
    assert Squeezed(s) == [s[0]] + Squeezed(u) && Squeezed(u) == [s[1]] + Squeezed(t);
  }

  lemma HexOfPair(high: nat, low: nat, bytes: seq<byte>, rest: seq<byte>)
    requires high < 16 && low < 16 && bytes == [high * 16 + low] + rest
    ensures ToHex(bytes) == [HexDigit(high), HexDigit(low)] + ToHex(rest)
  {
    assert bytes[1..] == rest;
    assert bytes[0] / 16 == high && bytes[0] % 16 == low;
  }

  lemma PairReads(s: string, t: string, high: nat, low: nat, rest: seq<byte>)
    requires |s| >= 2 && !IsSpace(s[0]) && DigitValue(s[0]) == Some(high) && DigitValue(s[1]) == Some(low)
    requires t == s[2..] && FromHex(t) == Success(rest)
    ensures high * 16 + low < 256 && FromHex(s) == Success([high * 16 + low] + rest)
  {
  }

  lemma PairIsRead(s: string, t: string)
    requires |s| >= 2 && IsHexDigit(s[0]) && IsHexDigit(s[1]) && t == s[2..]
    requires FromHex(t).Success? && ToHex(FromHex(t).value) == InSmallLetters(Squeezed(t))
    ensures FromHex(s).Success? && ToHex(FromHex(s).value) == InSmallLetters(Squeezed(s))
  {
    var high, low, rest := DigitValue(s[0]), DigitValue(s[1]), FromHex(t).value;
    DigitIsRead(s[0]);
    DigitIsRead(s[1]);
    PairReads(s, t, high.value, low.value, rest);
    HexOfPair(high.value, low.value, FromHex(s).value, rest);
    SqueezedPair(s, t);
  }
}
