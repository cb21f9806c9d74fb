# A verified model of doh-proxy

doh-proxy is a DNS-over-HTTPS forwarder. It listens for plain DNS queries on a
UDP port and reads each datagram into a single reused 512-byte buffer. It copies
the datagram's bytes out of that buffer and forwards them to a fixed DoH endpoint
(`https://cloudflare-dns.com/dns-query`). Each query goes as a GET request whose
`dns` parameter holds the query, encoded as unpadded base64url (section 4.1 and
section 6 of RFC 8484). The request asks for the response in `application/dns-message`
form. When the exchange succeeds, the response body goes back, unchanged, to the
client that sent the query. When it fails, nothing is sent.

The model has five modules:

- `Wrappers` holds the `Option` datatype.
- `Base64Url` is the encoding of section 5 of RFC 4648 without padding (section 3.2
  of RFC 4648). The encoder is `Encode`. Beside it is a canonical decoder, `Decode`,
  following section 3.5 of RFC 4648. Lemmas prove that the two are inverse, that
  the encoding uses only the URL-safe alphabet, and what length it has.
- `Base64Bits` gives an independent meaning to the encoding. It proves that the
  characters, read as a base-64 number, are the input bytes read as a base-256
  number, followed by the zero padding bits.
- `DohRequest` holds the URL, the request record, and `sendToDoH` over an abstract
  transport.
- `UdpRelay` is the receive loop. The class `Relay` owns the receive buffer
  `buf`, an `array<byte>` that every read overwrites. Its methods copy each
  datagram out into a new array. The per-datagram reply rule and the whole
  sequence of replies are stated as functions. The loop method `Serve` is proved
  to send exactly those replies.

## Model

| member | source | states |
|---|---|---|
| Base64Url.EncodeSextet | doh-proxy.go:62 | every value 0..63 maps to a character of `[A-Za-z0-9-_]` |
| Base64Url.DecodeSextet | doh-proxy.go:62 | a character has a value exactly when it is one of `[A-Za-z0-9-_]` |
| Base64Url.SextetRoundTrip | doh-proxy.go:62 | a value's character is read back as that value |
| Base64Url.SextetOfChar | doh-proxy.go:62 | each alphabet character is the character of its own value |
| Base64Url.EncodedLength | doh-proxy.go:62 | `4*(n/3)` plus 0, 2 or 3 characters is the fewest 6-bit characters that hold 8n bits, so nothing is padded |
| Base64Url.Encode | doh-proxy.go:61-62 | `RawURLEncoding.EncodeToString` has length EncodedLength(n), uses only `[A-Za-z0-9-_]` and never contains `=` |
| Base64Url.Decode | doh-proxy.go:62 | a string the canonical unpadded decoder accepts is made of the alphabet and has the encoded length of its result |
| Base64Url.DecodeEncode | doh-proxy.go:62 | decoding the encoded query gives back exactly the query bytes |
| Base64Url.EncodeDecode | doh-proxy.go:62 | every string the decoder accepts is exactly the encoding of what it decodes to |
| Base64Url.DecodeIffEncode | doh-proxy.go:62 | t decodes to s if and only if t is the encoding of s |
| Base64Url.EncodeInjective | doh-proxy.go:62 | distinct queries have distinct encodings |
| Base64Url.ShortTestVectors | doh-proxy.go:62 | the RFC 4648 vectors for "", "f", "fo", "foo" without padding: "", "Zg", "Zm8", "Zm9v" |
| Base64Url.FoobTestVector | doh-proxy.go:62 | "foob" encodes to "Zm9vYg" |
| Base64Url.FoobaTestVector | doh-proxy.go:62 | "fooba" encodes to "Zm9vYmE" |
| Base64Url.FoobarTestVector | doh-proxy.go:62 | "foobar" encodes to "Zm9vYmFy" |
| Base64Url.UrlSafeTestVector | doh-proxy.go:62 | bytes 0xfb 0xff encode to "-_8", using `-` and `_` where standard base64 has `+` and `/`, and decode back |
| Base64Bits.PadBits | doh-proxy.go:62 | the zero bits completing the last character (0, 4 or 2) make 6 bits per character exactly |
| Base64Bits.EncodeValue | doh-proxy.go:62 | the encoding, read in base 64, is the query read in base 256 shifted left by the padding bits: most significant bits first, nothing lost, nothing added but zeros |
| DohRequest.QueryUrl | doh-proxy.go:65 | the URL is the endpoint, then `?dns=`, then the encoding, and a server reading the `dns` parameter gets the query back |
| DohRequest.EmptyQueryUrl | doh-proxy.go:65 | an empty query gives `https://cloudflare-dns.com/dns-query?dns=` and nothing more |
| DohRequest.QueryUrlInjective | doh-proxy.go:62-65 | distinct queries give distinct URLs |
| DohRequest.QueryUrlShape | doh-proxy.go:65 | the URL's only `?` ends the endpoint, its only `=` follows `dns`, and it has no `&` or `#` |
| DohRequest.BuildRequest | doh-proxy.go:65-74 | the request has method GET, the header `Accept: application/dns-message` and nothing else, and a URL whose `dns` parameter decodes to the query |
| DohRequest.DohGetUnique | doh-proxy.go:65-74 | a request is a DoH GET for the query (GET, that Accept header, a `dns` parameter decoding to the query) if and only if it is the one BuildRequest makes |
| DohRequest.SendToDoH | doh-proxy.go:60-85 | the transport is asked with a DoH GET for the query; its failure is an error, and otherwise the body is the answer verbatim, whatever the HTTP status |
| UdpRelay.Truncate | doh-proxy.go:34-38 | a read keeps the whole datagram when it fits the 512-byte buffer and its first 512 bytes otherwise |
| UdpRelay.HandleQuery | doh-proxy.go:45-55 | a forwarder error sends no reply; a success sends one reply, the body unchanged, to the address captured with the query |
| UdpRelay.ReplyToAnswers | doh-proxy.go:38-55 | one read sends one reply answering it when it is a datagram whose exchange succeeds, and none otherwise |
| UdpRelay.RepliesCount | doh-proxy.go:36-56 | the loop sends exactly as many replies as there are datagrams whose exchange succeeds |
| UdpRelay.RepliesAnswerTheirSender | doh-proxy.go:45-55 | every reply sent is the unchanged answer to one datagram's query, addressed to that datagram's sender |
| UdpRelay.AnsweredReadsGetTheirReply | doh-proxy.go:36-56 | every datagram whose exchange succeeds gets its own reply, the unchanged answer to its query sent to its sender, placed after the replies to the answered reads before it, so replies and answered datagrams match one to one in the order read |
| UdpRelay.ReadErrorIgnored | doh-proxy.go:38-42 | a read error sends nothing and the loop goes on |
| UdpRelay.Relay.constructor | doh-proxy.go:34 | the buffer is a new array of 512 bytes |
| UdpRelay.Relay.Receive | doh-proxy.go:38 | a read writes n ≤ 512 bytes, the datagram truncated to the buffer, to the front of `buf` and leaves the rest of `buf` as it was |
| UdpRelay.Relay.Capture | doh-proxy.go:55 | `append([]byte(nil), buf[:n]...)` is a new array equal to `buf[0..n]` element for element |
| UdpRelay.Relay.ReceiveTwo | doh-proxy.go:36-55 | after the next read overwrites `buf`, which now starts with the second datagram, the first captured query still holds the first datagram, and the two copies are distinct new arrays |
| UdpRelay.Relay.HandleRead | doh-proxy.go:38-55 | one pass of the loop sends exactly the replies ReplyTo prescribes for that read; a datagram is written to the front of `buf` with the rest of `buf` unchanged, and a read error leaves `buf` as it was |
| UdpRelay.Relay.Serve | doh-proxy.go:36-56 | the receive loop over a run of reads sends exactly Replies: the replies of each read, in the order read |

## Left out

- Socket I/O is not modelled: resolving the address, `ListenUDP`, `ReadFromUDP`
  and `WriteToUDP`. What a read delivers is an input (a `ReadResult`). What a
  write would send is an output (a `Reply`).
- A read of a datagram larger than 512 bytes is modelled as delivering its
  first 512 bytes. That is how a UDP read into a short buffer behaves on the
  usual platforms.
- The goroutine per datagram is modelled as a call that completes before the
  next read. So the model fixes the replies in arrival order, while the real
  proxy may send them in any order.
- The receive loop never ends. It is modelled over any finite run of reads.
- The HTTP client, TLS and `io.ReadAll` are one abstract transport, a function
  from the request to `Answered(status, body)` or `Failed`. `Failed` covers both
  an error from `client.Do` and one from `io.ReadAll`. The transport is a
  function, so the same request always has the same outcome.
- UdpRelay.HandleQuery: an exchange that never completes is not represented.
  The transport always gives `Answered` or `Failed`, but `&http.Client{}` sets
  no timeout, so in the source an exchange can hang forever; that datagram's
  goroutine then never returns and the datagram gets no reply. The exact reply
  counts of HandleQuery, RepliesCount and AnsweredReadsGetTheirReply hold only
  for exchanges that end.
- Logging is not modelled: `log.Printf`, `log.Println` and the process exit of
  `log.Fatalf`.
- The error of `http.NewRequest` is not modelled. It depends on Go's URL parser,
  and the URL is always well-formed: a fixed endpoint plus characters of the
  URL-safe alphabet (QueryUrlShape).
- `Header.Set` canonicalises the key's case. "Accept" is already canonical, so
  the model keeps the key as given. The request body is always nil and is not
  a field.
- Go's library decoder is not part of this model, and the proxy never decodes.
  `Decode` is the canonical decoder of section 3.5 of RFC 4648. It rejects
  characters outside the alphabet, lengths of the form 4k+1 and non-zero
  padding bits. It is what makes DecodeIffEncode an if-and-only-if.
- The listen address `:53530` is used only by the socket setup, which is not
  modelled.
- `query[:n]` in the per-datagram closure is the whole query, because the copy
  has exactly n bytes. HandleQuery therefore takes the copied query as it is.
