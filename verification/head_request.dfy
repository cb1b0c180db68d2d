/**
 * The probe request the HTTP and HTTPS handlers send: a `HEAD / HTTP/1.1`
 * request line (section 3 of RFC 9112) followed by a single `Host` header
 * field carrying the destination, and the empty line that ends the header
 * section. `ParseHost` returns the `Host` value exactly as written between
 * `Host: ` and the final CRLF CRLF.
 */
module HeadRequest {
  import opened Wrappers
  import opened Utf8

  const RequestLine: string := "HEAD / HTTP/1.1"
  const Crlf: string := "\r\n"
  const HostField: string := "Host: "

  /** Everything before the destination: request line, CRLF, field name. */
  const Prefix: string := RequestLine + Crlf + HostField

  /** Everything after the destination: the field's CRLF and the empty line. */
  const Suffix: string := Crlf + Crlf

  /** The request text built from the destination. */
  function RequestText(destination: string): (r: string)
    ensures |r| == |Prefix| + |destination| + |Suffix|
    ensures r[..|Prefix|] == "HEAD / HTTP/1.1\r\nHost: "
    ensures r[|Prefix|..|r| - |Suffix|] == destination
    ensures r[|r| - |Suffix|..] == "\r\n\r\n"
  {
    Prefix + destination + Suffix
  }

  /** The bytes `sendall` receives: the request text encoded as UTF-8. */
  function RequestBytes(destination: string): seq<byte> {
    Encode(RequestText(destination))
  }

  /**
   * True when `s` holds a CR, LF or NUL, none of which may appear in a field
   * value (section 5.5 of RFC 9110); a recipient may end a line at a bare LF
   * (section 2.2 of RFC 9112).
   */
  predicate HasInvalidFieldChar(s: string) {
    exists i :: 0 <= i < |s| && s[i] in {'\r', '\n', '\0'}
  }

  /**
   * Reads a request of exactly the shape above and returns its `Host` value,
   * or `None` when the text has another shape or the value holds a
   * character a field value may not contain.
   */
  function ParseHost(text: string): (r: Option<string>)
    ensures r.Some? ==> |r.value| == |text| - |Prefix| - |Suffix|
  {
    if |text| >= |Prefix| + |Suffix|
       && text[..|Prefix|] == Prefix
       && text[|text| - |Suffix|..] == Suffix
    then
      var host := text[|Prefix|..|text| - |Suffix|];
      if HasInvalidFieldChar(host) then None else Some(host)
    else
      None
  }

  /**
   * The destination can be read back from the request exactly when it holds
   * no CR, LF or NUL; one with a line break could end the field early and
   * inject further header lines.
   */
  lemma ParseHostOfRequest(destination: string)
    ensures ParseHost(RequestText(destination))
            == (if HasInvalidFieldChar(destination) then None else Some(destination))
  {
  }

  /** `ParseHost` accepts a text only if it is the request built from the value it returns. */
  lemma ParseHostSound(text: string)
    requires ParseHost(text).Some?
    ensures text == RequestText(ParseHost(text).value)
    ensures !HasInvalidFieldChar(ParseHost(text).value)
  {
    var host := ParseHost(text).value;
    assert text == text[..|Prefix|] + host + text[|text| - |Suffix|..];
  }

  /** Both directions together: the parser's accepted texts are exactly the requests with a one-line host. */
  lemma ParseHostIff(text: string, destination: string)
    ensures ParseHost(text) == Some(destination)
            <==> text == RequestText(destination) && !HasInvalidFieldChar(destination)
  {
    if ParseHost(text) == Some(destination) {
      ParseHostSound(text);
    }
    if text == RequestText(destination) {
      ParseHostOfRequest(destination);
    }
  }

  /** The bytes of an ASCII string: one per character, its code. */
  function AsciiBytes(s: string): (r: seq<byte>)
    requires IsAscii(s)
    ensures |r| == |s|
  {
    seq(|s|, i requires 0 <= i < |s| => s[i] as int)
  }

  /** The fixed parts of the request are plain ASCII. */
  lemma FixedPartsAscii()
    ensures IsAscii(Prefix) && IsAscii(Suffix)
  {
    assert IsAscii(RequestLine);
    assert IsAscii(Crlf);
    assert IsAscii(HostField);
    AsciiAppend(RequestLine, Crlf);
    AsciiAppend(RequestLine + Crlf, HostField);
    AsciiAppend(Crlf, Crlf);
  }

  lemma AsciiAppend(a: string, b: string)
    requires IsAscii(a) && IsAscii(b)
    ensures IsAscii(a + b)
  {
    forall i | 0 <= i < |a + b| ensures ((a + b)[i] as int) < 0x80 {
      if i >= |a| {
        assert (a + b)[i] == b[i - |a|];
      }
    }
  }

  /**
   * On the wire the request is the ASCII bytes of the fixed prefix, then the
   * destination's UTF-8 encoding, then CR LF CR LF; decoding the bytes gives
   * the request text back.
   */
  lemma RequestBytesLayout(destination: string)
    ensures IsAscii(Prefix) && IsAscii(Suffix)
    ensures RequestBytes(destination)
            == AsciiBytes(Prefix) + Encode(destination) + AsciiBytes(Suffix)
    ensures Decode(RequestBytes(destination)) == Some(RequestText(destination))
  {
    EncodeAppend(Prefix + destination, Suffix);
    EncodeAppend(Prefix, destination);
    FixedPartsAscii();
    EncodeAscii(Prefix);
    EncodeAscii(Suffix);
    assert Encode(Prefix) == AsciiBytes(Prefix);
    assert Encode(Suffix) == AsciiBytes(Suffix);
    DecodeEncode(RequestText(destination));
  }
}
