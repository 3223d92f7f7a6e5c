// The error values of the ping-pong protocol and their text form: a type word, one space,
// then the message.
module PingPongError {
  import opened Wrappers
  import opened Text
  import Decimal

  datatype Error = Internal(msg: string) | ParseError(msg: string) | MissElement(msg: string)

  /** The message given to text that has no space between type word and message. */
  const MISSING_SEPARATE: string := "missing seperate ' ' between 'Error Type' and 'Error Message'"

  /** The type word that `Display` writes for each variant. */
  function Tag(e: Error): string {
    match e
    case Internal(_) => "INTERNAL"
    case ParseError(_) => "PARSEERROR"
    case MissElement(_) => "MISSELEMENT"
  }

  predicate IsTag(t: string) {
    t == "INTERNAL" || t == "PARSEERROR" || t == "MISSELEMENT"
  }

  /** `Display`. */
  function Display(e: Error): string {
    Tag(e) + " " + e.msg
  }

  /** `From<&str>`: split at the first space; the word before it picks the variant and
    * everything after it, spaces included, is the message. An unknown word is
    * `unimplemented!()`. */
  function FromStr(s: string): (r: Outcome<Error>)
    ensures !Contains(s, " ") ==> r == Returns(Internal(MISSING_SEPARATE))
  {
    match Find(s, " ")
    case None => Returns(Internal(MISSING_SEPARATE))
    case Some(i) =>
      var word, msg := s[..i], s[i + 1..];
      if word == "INTERNAL" then Returns(Internal(msg))
      else if word == "PARSEERROR" then Returns(ParseError(msg))
      else if word == "MISSELEMENT" then Returns(MissElement(msg))
      else Panics("not implemented")
  }

  /** `From<ParseIntError>`: the error's text becomes a parse error's message. */
  function FromParseIntError(k: Decimal.IntErrorKind): Error {
    ParseError(Decimal.IntErrorText(k))
  }

  /** Text made of a space-free word, a space and any message is read back as that
    * message under the variant the word names, and panics exactly when the word names none. */
  lemma SplitAtFirstSpace(word: string, msg: string)
    requires !Contains(word, " ")
    ensures FromStr(word + " " + msg).Returns? <==> IsTag(word)
    ensures FromStr(word + " " + msg).Returns? ==>
      Tag(FromStr(word + " " + msg).value) == word && FromStr(word + " " + msg).value.msg == msg
  {
    var s := word + " " + msg;
    assert OccursAt(s, " ", |word|) by { assert s[|word|..|word| + 1] == " "; }
    forall j: nat | j < |word| ensures !OccursAt(s, " ", j) {
      assert s[j..j + 1] == word[j..j + 1];
      assert !OccursAt(word, " ", j);
    }
    FindFirst(s, " ", |word|);
    assert s[..|word|] == word && s[|word| + 1..] == msg;
  }

  /** Reading back the text of any error gives the error. */
  lemma ErrorRoundTrip(e: Error)
    ensures FromStr(Display(e)) == Returns(e)
  {
    var t := Tag(e);
    forall i: nat ensures !OccursAt(t, " ", i) {
      if i + 1 <= |t| {
        assert t[i..i + 1][0] == t[i];
      }
    }
    SplitAtFirstSpace(t, e.msg);
  }

  /** A text with a space in it that is read as an error is that error's text. */
  lemma DisplayFromStr(t: string)
    requires Contains(t, " ") && FromStr(t).Returns?
    ensures Display(FromStr(t).value) == t
  {
    var i := Find(t, " ").value;
    assert t == t[..i] + " " + t[i + 1..];
  }

  /** Different errors have different texts. */
  lemma DisplayInjective(a: Error, b: Error)
    requires Display(a) == Display(b)
    ensures a == b
  {
    ErrorRoundTrip(a);
    ErrorRoundTrip(b);
  }
}
