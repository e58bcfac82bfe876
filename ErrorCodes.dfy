/** LIBJPEG_ERROR_CODES and the two error texts decode and get_parameters
    raise for a nonzero engine code (libjpeg/utils.py:12-53, 115-124, 225-234). */
module ErrorCodes {
  import opened Text

  /** The fixed table of engine codes and their descriptions. */
  const ErrorTable: map<int, string> := map[
    -1024 := "A parameter for a function was out of range",
    -1025 := "Stream run out of data",
    -1026 := "A code block run out of data",
    -1027 := "Tried to perform an unputc or or an unget on an empty stream",
    -1028 := "Some parameter run out of range",
    -1029 := "The requested operation does not apply",
    -1030 := "Tried to create an already existing object",
    -1031 := "Tried to access a non-existing object",
    -1032 := "A non-optional parameter was left out",
    -1033 := "Forgot to delay a 0xFF",
    -1034 := "Internal error: the requested operation is not available",
    -1035 := "Internal error: an item computed on a former pass does not "
             + "coincide with the same item on a later pass",
    -1036 := "The stream passed in is no valid jpeg stream",
    -1037 := "A unique marker turned up more than once. The input stream is "
             + "most likely corrupt",
    -1038 := "A misplaced marker segment was found",
    -1040 := "The specified parameters are valid, but are not supported by "
             + "the selected profile. Either use a higher profile, or use "
             + "simpler parameters (encoder only). ",
    -1041 := "Internal error: the worker thread that was currently active had "
             + "to terminate unexpectedly",
    -1042 := "The encoder tried to emit a symbol for which no Huffman code "
             + "was defined. This happens if the standard Huffman table is used "
             + "for an alphabet for which it was not defined. The reaction "
             + "to this exception should be to create a custom huffman table "
             + "instead",
    -2046 := "Failed to construct the JPEG object"
  ]

  /** The table holds exactly -1038..-1024, -1040, -1041, -1042 and -2046. */
  lemma ErrorTableCodes()
    ensures forall c :: c in ErrorTable <==>
              (-1038 <= c <= -1024 || c == -1040 || c == -1041 || c == -1042 || c == -2046)
  {
    forall c | -1038 <= c <= -1024 ensures c in ErrorTable {
      assert c == -1024 || c == -1025 || c == -1026 || c == -1027 || c == -1028
          || c == -1029 || c == -1030 || c == -1031 || c == -1032 || c == -1033
          || c == -1034 || c == -1035 || c == -1036 || c == -1037 || c == -1038;
    }
  }

  /** The three outcomes the source distinguishes for an engine code. */
  datatype Classification =
    | NoError
    | KnownError(code: int, description: string)
    | UnknownError(code: int)

  /** `code == 0`, else `code in LIBJPEG_ERROR_CODES`, else unknown. */
  function Classify(code: int): (c: Classification)
    ensures c.NoError? <==> code == 0
    ensures c.KnownError? <==> code in ErrorTable
    ensures c.KnownError? ==> c.code == code && c.description == ErrorTable[code]
    ensures c.UnknownError? ==> c.code == code && code != 0 && code !in ErrorTable
  {
    if code == 0 then NoError
    else if code in ErrorTable then KnownError(code, ErrorTable[code])
    else UnknownError(code)
  }

  const DecodeOperation: string := "Decode()"
  const ParametersOperation: string := "GetJPEGParameters()"
  const KnownPrefix: string := "libjpeg error code '"
  const UnknownPrefix: string := "Unknown error code '"

  /** "libjpeg error code '{code}' returned from {op}: {description} - {msg}" */
  function KnownErrorText(operation: string, code: int, description: string, message: string): (t: string)
    // the code is quoted first, the native message comes last, after the description
    ensures StartsWith(t, KnownPrefix + IntToString(code) + "'")
    ensures EndsWith(t, description + " - " + message)
  {
    KnownPrefix + IntToString(code) + "' returned from " + operation + ": "
    + description + " - " + message
  }

  /** "Unknown error code '{shown}' returned from {op}: {msg}" */
  function UnknownErrorText(operation: string, shown: string, message: string): (t: string)
    ensures StartsWith(t, UnknownPrefix + shown + "'")
    ensures EndsWith(t, ": " + message)
  {
    UnknownPrefix + shown + "' returned from " + operation + ": " + message
  }

  /** The text decode raises for a nonzero code: table codes carry their
      description between the code and the native message, other codes are
      reported as unknown with the code and the message. */
  function DecodeFailureText(code: int, message: string): (t: string)
    requires code != 0
    ensures code in ErrorTable <==> StartsWith(t, KnownPrefix)
    ensures code !in ErrorTable <==> StartsWith(t, UnknownPrefix)
    // a table code's text carries its description between the code and the native message
    ensures code in ErrorTable ==> t == KnownErrorText(DecodeOperation, code, ErrorTable[code], message)
    ensures code !in ErrorTable ==> t == UnknownErrorText(DecodeOperation, IntToString(code), message)
  {
    match Classify(code)
    case KnownError(_, description) =>
      var t := KnownErrorText(DecodeOperation, code, description, message);
      PrefixesExclusive(t);
      t
    case UnknownError(_) =>
      var t := UnknownErrorText(DecodeOperation, IntToString(code), message);
      PrefixesExclusive(t);
      t
  }

  lemma PrefixesExclusive(t: string)
    ensures !(StartsWith(t, KnownPrefix) && StartsWith(t, UnknownPrefix))
  {
    if StartsWith(t, KnownPrefix) {
      assert t[0] == KnownPrefix[0] != UnknownPrefix[0];
    }
  }

  /** The text get_parameters raises for a nonzero code; its unknown-code
      text shows the whole status token, not the parsed code. */
  function ParametersFailureText(status: string, code: int, message: string): (t: string)
    requires code != 0
    ensures code in ErrorTable ==> t == KnownErrorText(ParametersOperation, code, ErrorTable[code], message)
    ensures code !in ErrorTable ==> t == UnknownErrorText(ParametersOperation, status, message)
    ensures code in ErrorTable <==> StartsWith(t, KnownPrefix)
    // the unknown-code text quotes the status token as it came
    ensures code !in ErrorTable ==> StartsWith(t, UnknownPrefix + status + "'")
  {
    var t := if code in ErrorTable then KnownErrorText(ParametersOperation, code, ErrorTable[code], message)
             else UnknownErrorText(ParametersOperation, status, message);
    PrefixesExclusive(t);
    t
  }

  lemma StripPrefix(p: string, x: string, y: string)
    requires p + x == p + y
    ensures x == y
  {
    assert x == (p + x)[|p|..];
    assert y == (p + y)[|p|..];
  }

  /** A prefix, a quote-free field, a quote and the rest: the field and the rest are determined. */
  lemma QuotedFieldInjective(p: string, a1: string, r1: string, a2: string, r2: string)
    requires NoQuote(a1) && NoQuote(a2)
    requires p + a1 + "'" + r1 == p + a2 + "'" + r2
    ensures a1 == a2 && r1 == r2
  {
    assert p + a1 + "'" + r1 == p + (a1 + "'" + r1);
    assert p + a2 + "'" + r2 == p + (a2 + "'" + r2);
    StripPrefix(p, a1 + "'" + r1, a2 + "'" + r2);
    SplitAtQuote(a1, r1, a2, r2);
  }

  lemma KnownTextShape(code: int, description: string, message: string)
    ensures KnownErrorText(DecodeOperation, code, description, message)
         == KnownPrefix + IntToString(code) + "'" + (KnownMiddle(description) + message)
  {
  }

  lemma UnknownTextShape(code: int, message: string)
    ensures UnknownErrorText(DecodeOperation, IntToString(code), message)
         == UnknownPrefix + IntToString(code) + "'" + (UnknownMiddle + message)
  {
  }

  function KnownMiddle(description: string): string
  {
    " returned from " + DecodeOperation + ": " + description + " - "
  }

  const UnknownMiddle: string := " returned from " + DecodeOperation + ": "

  /** Classification never drops information: the code and the native
      message can be read back from the text decode raises. */
  lemma DecodeFailureTextInjective(c1: int, m1: string, c2: int, m2: string)
    requires c1 != 0 && c2 != 0
    requires DecodeFailureText(c1, m1) == DecodeFailureText(c2, m2)
    ensures c1 == c2 && m1 == m2
  {
    IntToStringPlain(c1);
    IntToStringPlain(c2);
    if c1 in ErrorTable {
      assert c2 in ErrorTable;
      KnownTextShape(c1, ErrorTable[c1], m1);
      KnownTextShape(c2, ErrorTable[c2], m2);
      QuotedFieldInjective(KnownPrefix, IntToString(c1), KnownMiddle(ErrorTable[c1]) + m1,
                           IntToString(c2), KnownMiddle(ErrorTable[c2]) + m2);
      IntToStringInjective(c1, c2);
      StripPrefix(KnownMiddle(ErrorTable[c1]), m1, m2);
    } else {
      assert c2 !in ErrorTable;
      UnknownTextShape(c1, m1);
      UnknownTextShape(c2, m2);
      QuotedFieldInjective(UnknownPrefix, IntToString(c1), UnknownMiddle + m1,
                           IntToString(c2), UnknownMiddle + m2);
      IntToStringInjective(c1, c2);
      StripPrefix(UnknownMiddle, m1, m2);
    }
  }

  /** -1036 is a table code: its text carries the table's description. */
  lemma InvalidStreamText(message: string)
    ensures DecodeFailureText(-1036, message)
         == KnownErrorText(DecodeOperation, -1036, "The stream passed in is no valid jpeg stream", message)
  {
    assert -1036 in ErrorTable;
  }

  /** -1039 sits inside the table's range but is not in it, so it is reported as unknown. */
  lemma GapCodeIsUnknown(message: string)
    ensures Classify(-1039) == UnknownError(-1039)
    ensures DecodeFailureText(-1039, message) == UnknownErrorText(DecodeOperation, "-1039", message)
  {
    assert IntToString(-1039) == "-1039" by {
      assert NatToDigits(1039) == "1039" by {
        assert NatToDigits(103) == "103" by {
          assert NatToDigits(10) == "10";
        }
      }
    }
  }
}
