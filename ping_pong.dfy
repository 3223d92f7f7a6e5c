// The ping-pong wire protocol: a text protocol shaped like the Redis serialization
// protocol, with simple strings (`+`), errors (`-`), 128-bit integers (`:`) and flat
// arrays (`*`). It is not RESP: an array is closed by one more CRLF after its elements.
// Bytes are modelled as characters (the encoding to and from UTF-8 is left out).
module PingPong {
  import opened Wrappers
  import opened Text
  import opened Decimal
  import opened PingPongError

  datatype Protocol =
    | SimpleString(s: string)
    | Errors(err: Error)
    | Integers(i: I128)
    | Arrays(items: seq<Protocol>)

  /** `usize` on the 64-bit targets the crate builds for. */
  const USIZE_LIMIT: int := 0x1_0000_0000_0000_0000

  const NOT_END_CRLF: string := "not ends with CRLF(\\r\\n)"
  const MORE_THAN_ONE_CRLF: string := "contains more than one CRLF(\\r\\n) in simple string"
  const MISSING_NUMERIC: string := "missing numeric of element"
  const UNWRAP_NONE: string := "called `Option::unwrap()` on a `None` value"
  const NOT_IMPLEMENTED: string := "not implemented"

  /** `Display` (and `to_bytes`): the type byte, the value's text, CRLF; an array writes its
    * length line, its elements one after the other, and a closing CRLF. */
  function Encode(p: Protocol): (s: string)
    ensures |s| >= 3 && s[|s| - 2..] == CRLF
    decreases p
  {
    match p
    case SimpleString(x) => "+" + x + CRLF
    case Errors(e) => "-" + Display(e) + CRLF
    case Integers(i) => ":" + IntToDecimal(i) + CRLF
    case Arrays(a) => "*" + NatToDecimal(|a|) + CRLF + EncodeAll(a) + CRLF
  }

  /** The loop of `Display` that concatenates the elements of an array. */
  function EncodeAll(a: seq<Protocol>): string
    decreases a
  {
    if a == [] then [] else Encode(a[0]) + EncodeAll(a[1..])
  }

  predicate EndsWithCrlf(s: string) {
    |s| >= 2 && s[|s| - 2..] == CRLF
  }

  /** Prefixes already-parsed elements to the outcome of parsing the rest. */
  function Prepend(done: seq<Protocol>, o: Outcome<seq<Protocol>>): Outcome<seq<Protocol>> {
    match o
    case Returns(rest) => Returns(done + rest)
    case Panics(m) => Panics(m)
  }

  /** `num as usize`: the low 64 bits of the two's complement count. */
  function AsUsize(num: I128): (r: nat)
    ensures r < USIZE_LIMIT
    ensures 0 <= num < USIZE_LIMIT ==> r == num
  {
    if 0 <= num < USIZE_LIMIT then num else num % USIZE_LIMIT
  }

  /** The element-count check closing an array: the declared count is cast to `usize`. */
  function CheckCount(num: I128, items: seq<Protocol>): Protocol {
    if |items| != AsUsize(num) then
      Errors(MissElement("expect " + IntToDecimal(num) + ", but get " + NatToDecimal(|items|)))
    else Arrays(items)
  }

  /** What `From<&str>` makes of a text: a protocol value (malformed input becomes an
    * `Errors` value) or a panic. */
  function Decode(s: string): Outcome<Protocol> {
    if !EndsWithCrlf(s) then Returns(Errors(ParseError(NOT_END_CRLF)))
    else DecodeBody(s[..|s| - 2])
  }

  /** The text before the final CRLF, dispatched on its type byte. */
  function DecodeBody(body: string): Outcome<Protocol> {
    if body != [] && body[0] == '*' then DecodeArray(body[1..])
    else DecodeScalar(body)
  }

  /** The branches for a missing type byte, `+`, `-`, `:`, and an unknown type byte. */
  function DecodeScalar(body: string): Outcome<Protocol> {
    if body == [] then Panics(UNWRAP_NONE)
    else if body[0] == '+' then Returns(DecodeSimple(body[1..]))
    else if body[0] == '-' then
      match PingPongError.FromStr(body[1..])
      case Panics(m) => Panics(m)
      case Returns(e) => Returns(Errors(e))
    else if body[0] == ':' then Returns(DecodeInteger(body[1..]))
    else Panics(NOT_IMPLEMENTED)
  }

  function DecodeSimple(content: string): Protocol {
    if Contains(content, CRLF) then Errors(ParseError(MORE_THAN_ONE_CRLF))
    else SimpleString(content)
  }

  function DecodeInteger(content: string): Protocol {
    match ParseI128(content)
    case Err(k) => Errors(FromParseIntError(k))
    case Ok(i) => Integers(i)
  }

  /** The array case after `*`: the count line, then the element lines. */
  function DecodeArray(content: string): Outcome<Protocol> {
    match Find(content, CRLF)
    case None => Returns(Errors(ParseError(MISSING_NUMERIC)))
    case Some(i) =>
      match ParseI128(content[..i])
      case Err(k) => Returns(Errors(FromParseIntError(k)))
      case Ok(num) =>
        match DecodeLines(content[i + 2..])
        case Panics(m) => Panics(m)
        case Returns(items) => Returns(CheckCount(num, items))
  }

  /** The element loop of the array case: every CRLF-terminated line is parsed on its own
    * and a trailing piece without CRLF is dropped. */
  function DecodeLines(rest: string): Outcome<seq<Protocol>>
    decreases |rest|
  {
    match Find(rest, CRLF)
    case None => Returns([])
    case Some(i) =>
      match DecodeItem(rest[..i])
      case Panics(m) => Panics(m)
      case Returns(p) => Prepend([p], DecodeLines(rest[i + 2..]))
  }

  /** What the parser makes of one element line, given without its CRLF. The line holds no
    * other CRLF, so a `*` line has no count line and cannot recurse (`ItemIsDecode`). */
  function DecodeItem(line: string): Outcome<Protocol> {
    if line != [] && line[0] == '*' then Returns(Errors(ParseError(MISSING_NUMERIC)))
    else DecodeScalar(line)
  }

  /** A suffix of a text without CRLF has none either. */
  lemma SuffixNoCrlf(s: string, k: nat)
    requires !Contains(s, CRLF) && k <= |s|
    ensures !Contains(s[k..], CRLF)
  {
    forall i: nat ensures !OccursAt(s[k..], CRLF, i) {
      if i + 2 <= |s| - k {
        assert s[k..][i..i + 2] == s[k + i..k + i + 2];
        assert !OccursAt(s, CRLF, k + i);
      }
    }
  }

  /** Parsing an element line is what the parser does on that line as a whole text. */
  lemma ItemIsDecode(line: string)
    requires !Contains(line, CRLF)
    ensures Decode(line + CRLF) == DecodeItem(line)
  {
    DecodeLine(line);
    if line != [] && line[0] == '*' {
      SuffixNoCrlf(line, 1);
    }
  }

  lemma PrependTwice(done: seq<Protocol>, p: Protocol, o: Outcome<seq<Protocol>>)
    ensures Prepend(done + [p], o) == Prepend(done, Prepend([p], o))
  {
    if o.Returns? {
      assert done + [p] + o.value == done + ([p] + o.value);
    }
  }

  /** One turn of the element loop: the first line's outcome goes in front of the rest's. */
  lemma DecodeLinesStep(rest: string, j: nat)
    requires Find(rest, CRLF) == Some(j)
    ensures DecodeLines(rest) ==
      match Decode(rest[..j + 2])
      case Panics(m) => Panics(m)
      case Returns(p) => Prepend([p], DecodeLines(rest[j + 2..]))
  {
    FindPrefixClean(rest, CRLF, j);
    assert rest[..j + 2] == rest[..j] + CRLF;
    ItemIsDecode(rest[..j]);
  }

  /** `From<&str>` (and `From<Vec<u8>>`): the parser. */
  method Parse(s: string) returns (r: Outcome<Protocol>)
    ensures r == Decode(s)
    decreases |s|
  {
    if !EndsWithCrlf(s) {
      return Returns(Errors(ParseError(NOT_END_CRLF)));
    }
    var body := s[..|s| - 2];
    if body == [] {
      return Panics(UNWRAP_NONE);
    }
    if body[0] == '+' {
      var content := body[1..];
      if Contains(content, CRLF) {
        return Returns(Errors(ParseError(MORE_THAN_ONE_CRLF)));
      }
      return Returns(SimpleString(content));
    } else if body[0] == '-' {
      var e := PingPongError.FromStr(body[1..]);
      if e.Panics? {
        return Panics(e.reason);
      }
      return Returns(Errors(e.value));
    } else if body[0] == ':' {
      var n := ParseI128(body[1..]);
      if n.Err? {
        return Returns(Errors(FromParseIntError(n.error)));
      }
      return Returns(Integers(n.value));
    } else if body[0] == '*' {
      r := ParseArray(body[1..]);
      return;
    }
    return Panics(NOT_IMPLEMENTED);
  }

  /** The array branch of the parser: it walks the element lines with a cursor, calling the
    * parser on each one. */
  method ParseArray(content: string) returns (r: Outcome<Protocol>)
    ensures r == DecodeArray(content)
    decreases |content|
  {
    var header := Find(content, CRLF);
    if header.None? {
      return Returns(Errors(ParseError(MISSING_NUMERIC)));
    }
    var i := header.value;
    var num := ParseI128(content[..i]);
    if num.Err? {
      return Returns(Errors(FromParseIntError(num.error)));
    }
    var rest := content[i + 2..];
    ghost var lines := rest;
    var items: seq<Protocol> := [];
    assert Prepend(items, DecodeLines(rest)) == DecodeLines(lines) by {
      assert DecodeLines(rest).Returns? ==> [] + DecodeLines(rest).value == DecodeLines(rest).value;
    }
    var next := Find(rest, CRLF);
    while next.Some?
      invariant |rest| < |content| && next == Find(rest, CRLF)
      invariant Prepend(items, DecodeLines(rest)) == DecodeLines(lines)
      decreases |rest|
    {
      var j := next.value;
      var item := Parse(rest[..j + 2]);
      DecodeLinesStep(rest, j);
      if item.Panics? {
        return Panics(item.reason);
      }
      PrependTwice(items, item.value, DecodeLines(rest[j + 2..]));
      items := items + [item.value];
      rest := rest[j + 2..];
      next := Find(rest, CRLF);
    }
    assert items + [] == items;
    return Returns(CheckCount(num.value, items));
  }

  /** A value that fits on one line: what an array may hold and still be read back. */
  predicate Line(p: Protocol) {
    match p
    case SimpleString(x) => !Contains(x, CRLF)
    case Errors(e) => !Contains(e.msg, CRLF)
    case Integers(_) => true
    case Arrays(_) => false
  }

  /** The values the protocol reads back: lines, errors with any message, and arrays of
    * lines whose length fits a `usize`. */
  predicate Flat(p: Protocol) {
    match p
    case SimpleString(x) => !Contains(x, CRLF)
    case Errors(_) => true
    case Integers(_) => true
    case Arrays(a) => |a| < USIZE_LIMIT && forall i :: 0 <= i < |a| ==> Line(a[i])
  }

  lemma DecimalNoCrlf(i: int)
    ensures !Contains(IntToDecimal(i), CRLF)
  {
    var t := IntToDecimal(i);
    var m: nat := if i < 0 then -i else i;
    var ds := NatToDecimal(m);
    forall k | 0 <= k < |t| ensures t[k] != '\r' {
      if i < 0 && k > 0 {
        assert t[k] == ds[k - 1];
      } else if i >= 0 {
        assert t[k] == ds[k];
      }
    }
    NoReturnNoCrlf(t);
  }

  /** A line's encoding has exactly one CRLF, its terminator. */
  lemma LineShape(p: Protocol)
    requires Line(p)
    ensures !Contains(Encode(p)[..|Encode(p)| - 2], CRLF)
  {
    var y := Encode(p)[..|Encode(p)| - 2];
    match p
    case SimpleString(x) =>
      NoReturnNoCrlf("+");
      ContainsCrlfConcat("+", x);
      assert y == "+" + x;
    case Errors(e) =>
      var head := "-" + Tag(e) + " ";
      NoReturnNoCrlf(head);
      ContainsCrlfConcat(head, e.msg);
      assert y == head + e.msg;
    case Integers(i) =>
      NoReturnNoCrlf(":");
      DecimalNoCrlf(i);
      ContainsCrlfConcat(":", IntToDecimal(i));
      assert y == ":" + IntToDecimal(i);
  }

  /** Every value other than an array is read back from its encoding. */
  lemma ScalarRoundTrip(p: Protocol)
    requires Flat(p) && !p.Arrays?
    ensures Decode(Encode(p)) == Returns(p)
  {
    match p
    case SimpleString(x) => SimpleStringRoundTrip(x);
    case Errors(e) => ErrorLineRoundTrip(e);
    case Integers(i) => IntegerRoundTrip(i);
  }

  lemma SimpleStringRoundTrip(x: string)
    requires !Contains(x, CRLF)
    ensures Decode(Encode(SimpleString(x))) == Returns(SimpleString(x))
  {
    DecodeLine("+" + x);
    assert ("+" + x)[1..] == x;
  }

  lemma ErrorLineRoundTrip(e: Error)
    ensures Decode(Encode(Errors(e))) == Returns(Errors(e))
  {
    DecodeLine("-" + Display(e));
    assert ("-" + Display(e))[1..] == Display(e);
    ErrorRoundTrip(e);
  }

  lemma IntegerRoundTrip(i: I128)
    ensures Decode(Encode(Integers(i))) == Returns(Integers(i))
  {
    DecodeLine(":" + IntToDecimal(i));
    assert (":" + IntToDecimal(i))[1..] == IntToDecimal(i);
    ParseI128OfDecimal(i);
  }

  /** Stripping the final CRLF. */
  lemma DecodeLine(body: string)
    ensures Decode(body + CRLF) == DecodeBody(body)
  {
    assert (body + CRLF)[..|body|] == body;
  }

  /** A CRLF-free head, its terminator and whatever follows. */
  lemma SplitAtTerminator(y: string, rest: string)
    requires !Contains(y, CRLF)
    ensures Find(y + CRLF + rest, CRLF) == Some(|y|)
    ensures (y + CRLF + rest)[..|y| + 2] == y + CRLF && (y + CRLF + rest)[..|y|] == y
    ensures (y + CRLF + rest)[|y| + 2..] == rest
  {
    FindTerminator(y, rest);
  }

  /** The element parser reads a line's value back from its text. */
  lemma LineItem(p: Protocol)
    requires Line(p)
    ensures DecodeItem(Encode(p)[..|Encode(p)| - 2]) == Returns(p)
  {
    match p
    case SimpleString(x) => SimpleItem(x);
    case Errors(e) => ErrorItem(e);
    case Integers(i) => IntegerItem(i);
  }

  lemma SimpleItem(x: string)
    requires !Contains(x, CRLF)
    ensures DecodeItem(Encode(SimpleString(x))[..|Encode(SimpleString(x))| - 2]) == Returns(SimpleString(x))
  {
    var y := Encode(SimpleString(x))[..|Encode(SimpleString(x))| - 2];
    assert y == "+" + x && y[1..] == x;
  }

  lemma ErrorItem(e: Error)
    ensures DecodeItem(Encode(Errors(e))[..|Encode(Errors(e))| - 2]) == Returns(Errors(e))
  {
    var y := Encode(Errors(e))[..|Encode(Errors(e))| - 2];
    assert y == "-" + Display(e) && y[1..] == Display(e);
    ErrorRoundTrip(e);
  }

  lemma IntegerItem(i: I128)
    ensures DecodeItem(Encode(Integers(i))[..|Encode(Integers(i))| - 2]) == Returns(Integers(i))
  {
    var y := Encode(Integers(i))[..|Encode(Integers(i))| - 2];
    assert y == ":" + IntToDecimal(i) && y[1..] == IntToDecimal(i);
    ParseI128OfDecimal(i);
  }

  /** The element loop on a CRLF-free line, its terminator and what follows. */
  lemma ItemCons(y: string, tail: string)
    requires !Contains(y, CRLF)
    ensures DecodeItem(y).Panics? ==> DecodeLines(y + CRLF + tail) == Panics(DecodeItem(y).reason)
    ensures DecodeItem(y).Returns? ==>
      DecodeLines(y + CRLF + tail) == Prepend([DecodeItem(y).value], DecodeLines(tail))
  {
    SplitAtTerminator(y, tail);
  }

  /** The loop reads a line's value, then goes on with what follows the line. */
  lemma LineCons(p: Protocol, tail: string)
    requires Line(p)
    ensures DecodeLines(Encode(p) + tail) == Prepend([p], DecodeLines(tail))
  {
    var y := Encode(p)[..|Encode(p)| - 2];
    LineShape(p);
    assert Encode(p) + tail == y + CRLF + tail;
    ItemCons(y, tail);
    LineItem(p);
  }

  /** The element loop reads back the concatenated encodings of lines. */
  lemma {:induction false} LinesRoundTrip(a: seq<Protocol>)
    requires forall i :: 0 <= i < |a| ==> Line(a[i])
    ensures DecodeLines(EncodeAll(a)) == Returns(a)
  {
    if a == [] {
      NoLines();
    } else {
      LinesRoundTrip(a[1..]);
      LinesCons(a[0], EncodeAll(a[1..]), a[1..]);
      assert [a[0]] + a[1..] == a;
    }
  }

  /** An empty text holds no lines. */
  lemma NoLines()
    ensures DecodeLines([]) == Returns([])
  {
    assert !OccursAt([], CRLF, 0);
  }

  /** A line in front of text that reads back as `tail` reads back as that line then `tail`. */
  lemma LinesCons(p: Protocol, rest: string, tail: seq<Protocol>)
    requires Line(p) && DecodeLines(rest) == Returns(tail)
    ensures DecodeLines(Encode(p) + rest) == Returns([p] + tail)
  {
    LineCons(p, rest);
  }

  /** An array text: `*`, the content, the closing CRLF. */
  lemma ArrayLine(content: string)
    ensures Decode("*" + content + CRLF) == DecodeArray(content)
  {
    DecodeLine("*" + content);
    assert ("*" + content)[1..] == content;
  }

  /** The content of an array text: a CRLF-free count, CRLF, then the element lines. */
  lemma ArrayContent(n: string, lines: string)
    requires !Contains(n, CRLF)
    ensures ParseI128(n).Err? ==>
      DecodeArray(n + CRLF + lines) == Returns(Errors(FromParseIntError(ParseI128(n).error)))
    ensures ParseI128(n).Ok? && DecodeLines(lines).Panics? ==>
      DecodeArray(n + CRLF + lines) == Panics(DecodeLines(lines).reason)
    ensures ParseI128(n).Ok? && DecodeLines(lines).Returns? ==>
      DecodeArray(n + CRLF + lines) == Returns(CheckCount(ParseI128(n).value, DecodeLines(lines).value))
  {
    SplitAtTerminator(n, lines);
  }

  /** A count below the usize range is its own truncation, so it matches the elements. */
  lemma CountMatches(a: seq<Protocol>)
    requires |a| < USIZE_LIMIT
    ensures CheckCount(|a|, a) == Arrays(a)
  {
  }

  /** The content of an array of lines is read back as that array. */
  lemma ArrayContentRoundTrip(a: seq<Protocol>)
    requires Flat(Arrays(a))
    ensures DecodeArray(NatToDecimal(|a|) + CRLF + EncodeAll(a)) == Returns(Arrays(a))
  {
    var n := NatToDecimal(|a|);
    assert IntToDecimal(|a|) == n;
    DecimalNoCrlf(|a|);
    ArrayContent(n, EncodeAll(a));
    ParseI128OfDecimal(|a|);
    LinesRoundTrip(a);
    CountMatches(a);
  }

  /** An array of lines is read back from its encoding, the extra closing CRLF included. */
  lemma ArrayRoundTrip(a: seq<Protocol>)
    requires Flat(Arrays(a))
    ensures Decode(Encode(Arrays(a))) == Returns(Arrays(a))
  {
    var content := NatToDecimal(|a|) + CRLF + EncodeAll(a);
    ArrayText(NatToDecimal(|a|), EncodeAll(a));
    ArrayLine(content);
    ArrayContentRoundTrip(a);
  }

  /** An array text is `*`, its content (count, CRLF, elements), and the closing CRLF. */
  lemma ArrayText(count: string, elements: string)
    ensures "*" + count + CRLF + elements + CRLF == "*" + (count + CRLF + elements) + CRLF
  {
  }

  /** Every flat value is read back from its encoding. */
  lemma FlatRoundTrip(p: Protocol)
    requires Flat(p)
    ensures Decode(Encode(p)) == Returns(p)
  {
    if p.Arrays? {
      ArrayRoundTrip(p.items);
    } else {
      ScalarRoundTrip(p);
    }
  }

  /** Whatever text parses to a simple string is that string's encoding. */
  lemma ReencodeSimpleString(b: string)
    requires Decode(b).Returns? && Decode(b).value.SimpleString?
    ensures Encode(Decode(b).value) == b
  {
    var body := b[..|b| - 2];
    assert b == body + CRLF;
    SimpleBody(body);
  }

  /** A body read as a simple string is `+` followed by that string. */
  lemma SimpleBody(body: string)
    requires DecodeBody(body).Returns? && DecodeBody(body).value.SimpleString?
    ensures body == "+" + DecodeBody(body).value.s
  {
    assert body[0] == '+';
    assert body == [body[0]] + body[1..];
  }

  /** Error text whose word is followed by a space is its error's encoding. */
  lemma ReencodeError(b: string)
    requires Decode(b).Returns? && Decode(b).value.Errors?
    requires EndsWithCrlf(b) && |b| >= 3 && b[0] == '-' && Contains(b[1..|b| - 2], " ")
    ensures Encode(Decode(b).value) == b
  {
    var body := b[..|b| - 2];
    var t := body[1..];
    assert b == "-" + t + CRLF;
    assert t == b[1..|b| - 2];
    DisplayFromStr(t);
  }

  /** The reverse round trip holds only for canonical text: a signed integer is read but
    * written back without its sign. */
  lemma NonCanonicalInteger()
    ensures Decode(":+5\r\n") == Returns(Integers(5))
    ensures Encode(Integers(5)) != ":+5\r\n"
  {
    DecodeLine(":+5");
    assert ":+5"[1..] == "+5" && "+5"[1..] == "5";
    var five := "5";
    assert five[..0] == [];
    assert DigitsValue(five) == 5;
    AccumulateOk(five, I128_MAX, PosOverflow);
    assert Encode(Integers(5))[1] == '5';
  }

  /** A text that does not end in CRLF is a parse error. */
  lemma MissingCrlf(s: string)
    requires !EndsWithCrlf(s)
    ensures Decode(s) == Returns(Errors(ParseError(NOT_END_CRLF)))
  {
  }

  /** A simple string with a second CRLF inside it is a parse error. */
  lemma SimpleStringWithCrlf(x: string)
    requires Contains(x, CRLF)
    ensures Decode("+" + x + CRLF) == Returns(Errors(ParseError(MORE_THAN_ONE_CRLF)))
  {
    DecodeLine("+" + x);
    assert ("+" + x)[1..] == x;
  }

  /** An integer that does not parse becomes the parse error carrying the integer error's text. */
  lemma IntegerParseFailure(t: string)
    requires ParseI128(t).Err?
    ensures Decode(":" + t + CRLF) == Returns(Errors(ParseError(IntErrorText(ParseI128(t).error))))
  {
    DecodeLine(":" + t);
    assert (":" + t)[1..] == t;
  }

  /** An array header without a CRLF after the count is a parse error. */
  lemma ArrayHeaderWithoutCount(t: string)
    requires !Contains(t, CRLF)
    ensures Decode("*" + t + CRLF) == Returns(Errors(ParseError(MISSING_NUMERIC)))
  {
    DecodeLine("*" + t);
    assert ("*" + t)[1..] == t;
  }

  /** An array whose lines do not number the declared count is a missing-element error. */
  lemma ArrayCountMismatch(num: I128, lines: string, items: seq<Protocol>)
    requires DecodeLines(lines) == Returns(items) && |items| != AsUsize(num)
    ensures Decode("*" + (IntToDecimal(num) + CRLF + lines) + CRLF) ==
      Returns(Errors(MissElement("expect " + IntToDecimal(num) + ", but get " + NatToDecimal(|items|))))
  {
    var n := IntToDecimal(num);
    ArrayLine(n + CRLF + lines);
    DecimalNoCrlf(num);
    ArrayContent(n, lines);
    ParseI128OfDecimal(num);
  }

  /** A bare CRLF panics: there is no type byte to read. */
  lemma EmptyBodyPanics()
    ensures Decode(CRLF) == Panics(UNWRAP_NONE)
  {
    DecodeLine([]);
    assert [] + CRLF == CRLF;
  }

  /** A type byte other than `+`, `-`, `:` and `*` panics. */
  lemma UnknownTypePanics(c: char, t: string)
    requires c != '+' && c != '-' && c != ':' && c != '*'
    ensures Decode([c] + t + CRLF) == Panics(NOT_IMPLEMENTED)
  {
    DecodeLine([c] + t);
  }

  /** The encoding of an array holding an empty array. */
  lemma NestedArrayEncoding()
    ensures Encode(Arrays([Arrays([])])) == "*" + ("1" + CRLF + ("*0" + CRLF + CRLF)) + CRLF
  {
    assert NatToDecimal(0) == "0" && NatToDecimal(1) == "1";
    assert EncodeAll([Arrays([])]) == Encode(Arrays([]));
  }

  /** The count line `1` holds no CRLF and parses as one. */
  lemma CountOne()
    ensures !Contains("1", CRLF) && ParseI128("1") == Ok(1)
  {
    NoReturnNoCrlf("1");
    assert DigitsValue("1") == 1 by { assert "1"[..0] == []; }
    AccumulateOk("1", I128_MAX, PosOverflow);
  }

  /** The lines of an empty array followed by its closing CRLF: the `*0` line is an element
    * of its own, and the closing CRLF is then an empty element, which panics. */
  lemma NestedLinesPanics()
    ensures DecodeLines("*0" + CRLF + CRLF) == Panics(UNWRAP_NONE)
  {
    NoReturnNoCrlf("*0");
    ItemCons("*0", CRLF);
    NoReturnNoCrlf([]);
    ItemCons([], []);
    assert [] + CRLF + [] == CRLF;
  }

  /** Arrays do not nest: the encoding of an array holding an empty array cannot be read
    * back, because the inner array's closing CRLF is taken for an element of its own. */
  lemma NestedArrayPanics()
    ensures Decode(Encode(Arrays([Arrays([])]))) == Panics(UNWRAP_NONE)
  {
    var inner := "*0" + CRLF + CRLF;
    NestedArrayEncoding();
    ArrayLine("1" + CRLF + inner);
    CountOne();
    NestedLinesPanics();
    ArrayContent("1", inner);
  }
}
