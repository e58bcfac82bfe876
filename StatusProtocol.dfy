/** The status token every engine call returns: "<int>::::<message>".
    decode and get_parameters split it with `code, msg = status.split("::::")`
    and read the left part with `int(code)` (libjpeg/utils.py:98-100, 218-220). */
module StatusProtocol {
  import opened Common
  import opened Text

  const Delimiter: string := "::::"

  datatype Status = Status(code: int, message: string)

  /** Split on the delimiter, insist on exactly two parts, read the first as an int. */
  function ParseStatus(raw: string): (r: Result<Status, Error>)
    ensures r.Success? ==> !Contains(r.value.message, Delimiter)
    ensures r.Failure? ==> r.error.StatusPartCount? || r.error.StatusCodeNotInteger?
  {
    var parts := Split(raw, Delimiter);
    SplitPartsFree(raw, Delimiter);
    if |parts| != 2 then Failure(StatusPartCount(|parts|))
    else match ParseInt(parts[0])
      case None => Failure(StatusCodeNotInteger(parts[0]))
      case Some(code) => Success(Status(code, parts[1]))
  }

  /** An accepted token is a decimal literal for the code, the delimiter, and the message. */
  lemma ParseStatusSound(raw: string)
    requires ParseStatus(raw).Success?
    ensures |ParseStatus(raw).value.message| + |Delimiter| <= |raw|
    ensures var st := ParseStatus(raw).value;
            var left := raw[..|raw| - |st.message| - |Delimiter|];
            raw == left + Delimiter + st.message &&
            ParseInt(left) == Some(st.code)
  {
    var st := ParseStatus(raw).value;
    var parts := Split(raw, Delimiter);
    JoinSplit(raw, Delimiter);
    assert parts[1..] == [parts[1]];
    assert raw == parts[0] + Delimiter + parts[1];
    assert raw[..|raw| - |st.message| - |Delimiter|] == parts[0];
  }

  /** Conversely, a decimal literal, the delimiter and a message free of the
      delimiter always parse back to that code and that message. */
  lemma ParseStatusComplete(left: string, message: string)
    requires IsDecimal(left) && !Contains(message, Delimiter)
    ensures ParseStatus(left + Delimiter + message) == Success(Status(ParseInt(left).value, message))
  {
    var raw := left + Delimiter + message;
    FirstDelimiterAfterCode(left, message);
    assert raw[|left| + |Delimiter|..] == message;
    assert raw[..|left|] == left;
    assert IndexOf(message, Delimiter).None?;
    assert Split(raw, Delimiter) == [left, message];
  }

  /** A message that itself holds the delimiter makes the unpacking fail:
      the split yields three or more parts. */
  lemma ParseStatusRejectsDelimiterInMessage(left: string, message: string)
    requires IsDecimal(left) && Contains(message, Delimiter)
    ensures var r := ParseStatus(left + Delimiter + message);
            r.Failure? && r.error.StatusPartCount? && r.error.parts >= 3
  {
    var raw := left + Delimiter + message;
    FirstDelimiterAfterCode(left, message);
    assert raw[|left| + |Delimiter|..] == message;
    var j := IndexOf(message, Delimiter).value;
    assert |Split(message, Delimiter)| >= 2;
  }

  lemma FirstDelimiterAfterCode(left: string, message: string)
    requires IsDecimal(left)
    ensures IndexOf(left + Delimiter + message, Delimiter) == Some(|left|)
  {
    var raw := left + Delimiter + message;
    DecimalHasNoColon(left);
    assert raw[|left|..|left| + |Delimiter|] == Delimiter;
    forall j | 0 <= j < |left|
      ensures !OccursAt(raw, Delimiter, j)
    {
      assert raw[j] == left[j];
      if j + |Delimiter| <= |raw| {
        assert raw[j..j + |Delimiter|][0] == raw[j];
      }
    }
    IndexOfFirst(raw, Delimiter, |left|);
  }

  /** Formatting a code and a delimiter-free message and parsing the token is the identity. */
  lemma ParseStatusRoundTrip(code: int, message: string)
    requires !Contains(message, Delimiter)
    ensures ParseStatus(IntToString(code) + Delimiter + message) == Success(Status(code, message))
  {
    IntToStringPlain(code);
    ParseIntOfIntToString(code);
    ParseStatusComplete(IntToString(code), message);
  }

  /** The success token: code 0 and an empty message. */
  lemma ParseSuccessToken()
    ensures ParseStatus("0::::") == Success(Status(0, ""))
  {
    assert "0" + Delimiter + "" == "0::::";
    assert !Contains("", Delimiter);
    ParseStatusComplete("0", "");
  }

  /** A failure token keeps the native message verbatim. */
  lemma ParseInvalidStreamToken()
    ensures ParseStatus("-1036::::bad stream") == Success(Status(-1036, "bad stream"))
  {
    assert "-1036" + Delimiter + "bad stream" == "-1036::::bad stream";
    assert NoColon("bad stream");
    NoColonNotContains("bad stream", Delimiter);
    assert "-1036"[1..] == "1036";
    assert DigitsValue("1036") == 1036 by {
      assert "1036"[..3] == "103";
      assert "103"[..2] == "10";
      assert "10"[..1] == "1";
      assert "1"[..0] == "";
    }
    ParseStatusComplete("-1036", "bad stream");
  }
}
