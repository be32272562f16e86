/** The length-prefixed wire format shared by `ServerBase` and `ClientBase` in
    pyhelper.py: a decimal byte-length header of `HEADER_SIZE` characters followed by
    the JSON body.  The server pads its header with zeros (`zfill`), the client with
    spaces (`"{0:10d}"`); both read the first `HEADER_SIZE` bytes back as the length. */
module Framing {
  import opened Results
  import opened Text

  const Host: string := "localhost"
  const Port: nat := 6550
  const HeaderSize: nat := 10

  /** The largest body length whose decimal form still fits the header. */
  const MaxBodyLength: nat := Pow10(HeaderSize) - 1

  lemma HeaderDigitsAscii(s: string)
    requires AllDigits(s)
    ensures AsciiText(s)
  {
  }

  /** `str(len(body)).zfill(HEADER_SIZE)`. */
  function ServerHeader(length: nat): (h: string)
    ensures AllDigits(h) && AsciiText(h)
    ensures |h| >= HeaderSize
  {
    var s := NatToString(length);
    LeadingZeros(HeaderSize - |s|, s);
    ZFill(s, HeaderSize)
  }

  /** `"{0:10d}".format(len(body))`. */
  function ClientHeader(length: nat): (h: string)
    ensures AsciiText(h)
    ensures |h| >= HeaderSize
  {
    FormatWidth(length, HeaderSize)
  }

  /** The bytes `ServerBase.write` hands to the socket for an encoded reply body. */
  function ServerFrame(body: seq<byte>): seq<byte> {
    Encode(ServerHeader(|body|)) + body
  }

  /** The bytes `ClientBase.send` hands to `sendall` for an encoded request body. */
  function ClientFrame(body: seq<byte>): seq<byte> {
    Encode(ClientHeader(|body|)) + body
  }

  /** `ServerBase.write`: the frame goes out only while the socket is connected. */
  function Write(connected: bool, body: seq<byte>): (out: seq<byte>)
    ensures !connected ==> out == []
    ensures connected ==> |out| >= HeaderSize + |body| && out[|out| - |body|..] == body
    ensures connected && |body| <= MaxBodyLength ==> |out| == HeaderSize + |body|
  {
    if connected then
      ServerHeaderWidth(|body|);
      ServerFrame(body)
    else
      []
  }

  /** The header is exactly `HEADER_SIZE` wide iff the length fits in it. */
  lemma ServerHeaderWidth(length: nat)
    ensures |ServerHeader(length)| == HeaderSize <==> length <= MaxBodyLength
  {
    NatToStringLength(length, HeaderSize);
  }

  lemma ClientHeaderWidth(length: nat)
    ensures |ClientHeader(length)| == HeaderSize <==> length <= MaxBodyLength
  {
    NatToStringLength(length, HeaderSize);
  }

  lemma DecodePrefix(s: string, k: nat)
    requires AsciiText(s) && k <= |s|
    ensures Ascii(Encode(s)[..k]) && Decode(Encode(s)[..k]) == s[..k]
  {
  }

  /** A header field that is all digits never reads back as a length too wide for it. */
  lemma WideHeaderMisread(h: string, length: nat)
    requires AllDigits(h) && |h| == HeaderSize && length > MaxBodyLength
    ensures PyInt(h) != Some(length)
  {
    PyIntDigits(h);
    DigitsValueBound(h);
  }

  /** The first `HEADER_SIZE` bytes of a frame are the first `HEADER_SIZE` characters
      of its header, and the body follows a header that fits. */
  lemma FramePrefix(h: string, body: seq<byte>)
    requires AsciiText(h) && |h| >= HeaderSize
    ensures |Encode(h) + body| >= HeaderSize
    ensures Ascii((Encode(h) + body)[..HeaderSize])
    ensures Decode((Encode(h) + body)[..HeaderSize]) == h[..HeaderSize]
    ensures |h| == HeaderSize ==> (Encode(h) + body)[HeaderSize..] == body
  {
    assert (Encode(h) + body)[..HeaderSize] == Encode(h)[..HeaderSize];
    DecodePrefix(h, HeaderSize);
  }

  /** A length that fits: the server's header is the decimal left-padded with zeros,
      and `int()` reads it back. */
  lemma ServerHeaderFits(length: nat)
    requires length <= MaxBodyLength
    ensures ServerHeader(length)[..HeaderSize] == Repeat('0', HeaderSize - |NatToString(length)|) + NatToString(length)
    ensures PyInt(ServerHeader(length)[..HeaderSize]) == Some(length)
  {
    ServerHeaderText(length);
    PyIntZeroPadded(length, HeaderSize - |NatToString(length)|);
    ReadsSame(ServerHeader(length)[..HeaderSize], Repeat('0', HeaderSize - |NatToString(length)|) + NatToString(length), length);
  }

  lemma ServerHeaderText(length: nat)
    requires length <= MaxBodyLength
    ensures ServerHeader(length)[..HeaderSize] == Repeat('0', HeaderSize - |NatToString(length)|) + NatToString(length)
  {
    var s := NatToString(length);
    NatToStringLength(length, HeaderSize);
    ZFillDigits(s, HeaderSize);
    var h := ServerHeader(length);
    assert |h| == HeaderSize && h[..HeaderSize] == h;
  }

  /** Equal texts read back alike. */
  lemma ReadsSame(x: string, y: string, n: int)
    requires x == y && PyInt(y) == Some(n)
    ensures PyInt(x) == Some(n)
  {
  }

  /** A length too wide for the field: its first ten digits read back as something else. */
  lemma ServerHeaderOverflows(length: nat)
    requires length > MaxBodyLength
    ensures PyInt(ServerHeader(length)[..HeaderSize]) != Some(length)
  {
    var s := NatToString(length);
    NatToStringLength(length, HeaderSize);
    assert ServerHeader(length) == s;
    WideHeaderMisread(s[..HeaderSize], length);
  }

  /** The first `HEADER_SIZE` bytes of a server frame are zero-padded decimal digits that
      `int()` of their decoded text, as `ClientBase.recv` reads them, gives back as the
      body length exactly when the length fits the header. */
  lemma ServerFrameHeader(body: seq<byte>)
    ensures |ServerFrame(body)| >= HeaderSize
    ensures Ascii(ServerFrame(body)[..HeaderSize])
    ensures AllDigits(Decode(ServerFrame(body)[..HeaderSize]))
    ensures PyIntUnicode(Decode(ServerFrame(body)[..HeaderSize])) == Some(|body|) <==> |body| <= MaxBodyLength
    ensures |body| <= MaxBodyLength ==> ServerFrame(body)[HeaderSize..] == body
  {
    ServerHeaderWidth(|body|);
    FramePrefix(ServerHeader(|body|), body);
    var h := Decode(ServerFrame(body)[..HeaderSize]);
    assert forall i :: 0 <= i < |h| ==> IsDigit(h[i]);
    EncodeDecimalKeeps(h);
    if |body| <= MaxBodyLength {
      ServerHeaderFits(|body|);
    } else {
      ServerHeaderOverflows(|body|);
    }
  }

  /** A length that fits: the client's header is the decimal right-aligned with spaces,
      not zeros, and `int()` reads it back. */
  lemma ClientHeaderFits(length: nat)
    requires length <= MaxBodyLength
    ensures ClientHeader(length)[..HeaderSize] == Repeat(' ', HeaderSize - |NatToString(length)|) + NatToString(length)
    ensures PyInt(ClientHeader(length)[..HeaderSize]) == Some(length)
  {
    ClientHeaderText(length);
    PyIntSpacePadded(length, HeaderSize - |NatToString(length)|);
    ReadsSame(ClientHeader(length)[..HeaderSize], Repeat(' ', HeaderSize - |NatToString(length)|) + NatToString(length), length);
  }

  lemma ClientHeaderText(length: nat)
    requires length <= MaxBodyLength
    ensures ClientHeader(length)[..HeaderSize] == Repeat(' ', HeaderSize - |NatToString(length)|) + NatToString(length)
  {
    NatToStringLength(length, HeaderSize);
    FormatWidthNat(length, HeaderSize);
    var h := ClientHeader(length);
    assert |h| == HeaderSize && h[..HeaderSize] == h;
  }

  /** A length too wide for the field: its first ten digits read back as something else. */
  lemma ClientHeaderOverflows(length: nat)
    requires length > MaxBodyLength
    ensures PyInt(ClientHeader(length)[..HeaderSize]) != Some(length)
  {
    var s := NatToString(length);
    NatToStringLength(length, HeaderSize);
    assert ClientHeader(length) == s;
    WideHeaderMisread(s[..HeaderSize], length);
  }

  /** The client's header is right-aligned with spaces, not zeros, and `int()` reads it
      back as the body length exactly when the length fits the header. */
  lemma ClientFrameHeader(body: seq<byte>)
    ensures |ClientFrame(body)| >= HeaderSize
    ensures Ascii(ClientFrame(body)[..HeaderSize])
    ensures |body| <= MaxBodyLength ==>
      Decode(ClientFrame(body)[..HeaderSize]) ==
        Repeat(' ', HeaderSize - |NatToString(|body|)|) + NatToString(|body|)
    ensures PyInt(Decode(ClientFrame(body)[..HeaderSize])) == Some(|body|) <==> |body| <= MaxBodyLength
    ensures |body| <= MaxBodyLength ==> ClientFrame(body)[HeaderSize..] == body
  {
    ClientHeaderWidth(|body|);
    FramePrefix(ClientHeader(|body|), body);
    if |body| <= MaxBodyLength {
      ClientHeaderFits(|body|);
    } else {
      ClientHeaderOverflows(|body|);
    }
  }
}
