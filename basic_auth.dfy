/** HTTP Basic client authentication as section 2 of RFC 7617 defines it: the
    header value is "Basic " followed by the base64 of the UTF-8 bytes of
    "id:secret". Section 2.3.1 of RFC 6749 asks for the id and secret to be
    form-urlencoded before this step; the service does not do that, so `Parse`
    reads the header as RFC 7617 does. A server following RFC 6749 would
    form-decode the two parts and read, for instance, a '+' in the secret as
    a space. */
module BasicAuth {
  import opened Common
  import opened Text
  import Utf8
  import Base64

  const Scheme: string := "Basic "

  /** The Authorization header value for a client id and secret. */
  function Header(clientId: string, clientSecret: string): string {
    Scheme + Base64.Encode(Utf8.Encode(clientId + ":" + clientSecret))
  }

  /** What a server reads from such a header: the id is everything before the
      first ':' of the decoded pass, the secret everything after it. */
  function Parse(header: string): Option<(string, string)> {
    if |header| < |Scheme| || header[..|Scheme|] != Scheme then None
    else match Base64.Decode(header[|Scheme|..])
      case None => None
      case Some(bytes) =>
        match Utf8.Decode(bytes)
        case None => None
        case Some(pass) =>
          match SplitFirst(pass, ':')
          case (_, None) => None
          case (id, Some(secret)) => Some((id, secret))
  }

  /** A server recovers exactly the client id and secret, provided the id has
      no ':' (section 2 of RFC 7617 forbids one). */
  lemma ParseHeader(clientId: string, clientSecret: string)
    requires ':' !in clientId
    ensures Parse(Header(clientId, clientSecret)) == Some((clientId, clientSecret))
  {
    var pass := clientId + ":" + clientSecret;
    var h := Header(clientId, clientSecret);
    assert h[..|Scheme|] == Scheme && h[|Scheme|..] == Base64.Encode(Utf8.Encode(pass));
    Base64.DecodeEncode(Utf8.Encode(pass));
    Utf8.DecodeEncode(pass);
    assert pass == clientId + [':'] + clientSecret;
    SplitFirstAt(clientId, ':', clientSecret);
  }

  /** The bytes the header carries, whatever the id: the UTF-8 of the id, the
      byte 0x3A of ':', then the UTF-8 of the secret. */
  lemma HeaderBytes(clientId: string, clientSecret: string)
    ensures Header(clientId, clientSecret)[..|Scheme|] == Scheme
    ensures Base64.Decode(Header(clientId, clientSecret)[|Scheme|..])
         == Some(Utf8.Encode(clientId) + [0x3A] + Utf8.Encode(clientSecret))
  {
    var h := Header(clientId, clientSecret);
    var pass := clientId + ":" + clientSecret;
    assert h[|Scheme|..] == Base64.Encode(Utf8.Encode(pass));
    Utf8.EncodeAppend(clientId + ":", clientSecret);
    Utf8.EncodeAppend(clientId, ":");
    assert Utf8.Encode(":") == [0x3A] by {
      assert ":"[1..] == [];
    }
    Base64.DecodeEncode(Utf8.Encode(pass));
  }
}
