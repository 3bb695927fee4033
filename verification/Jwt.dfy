/** Signing, verifying and decoding HS256 tokens: header '.' payload '.' signature. */
module Jwt {
  import opened Bits
  import Base64Url
  import Hmac
  import opened Options

  type Text = seq<Octet>

  const DOT: Octet := 46

  // ----- JSON, as far as the signer looks into it -----

  datatype Json =
    | Null
    | Bool(b: bool)
    | Number(n: int)
    | Str(s: Text)
    | Array(items: seq<Json>)
    | Object(fields: map<Text, Json>)

  /** The JSON library: both directions are partial, `None` standing for a thrown exception. */
  datatype Codec = Codec(dump: Json -> Option<Text>, parse: Text -> Option<Json>)

  /** The library reads back what it wrote for this value. */
  ghost predicate ReadsBack(codec: Codec, j: Json) {
    codec.dump(j).Some? ==> codec.parse(codec.dump(j).value) == Some(j)
  }

  /** Text of 7-bit characters, as octets. */
  function Ascii(s: string): Text
    requires forall i :: 0 <= i < |s| ==> s[i] as int < 128
  {
    seq(|s|, i requires 0 <= i < |s| => s[i] as int)
  }

  const IAT: Text := Ascii("iat")

  const HEADER: Json := Object(map[Ascii("alg") := Str(Ascii("HS256")), Ascii("typ") := Str(Ascii("JWT"))])

  /** `payload["iat"] = now` unless present; assigning a member of a scalar or an array throws. */
  function Stamped(payload: Json, now: int): (r: Option<Json>)
    ensures r.Some? <==> payload.Object? || payload.Null?
    ensures r.Some? ==> r.value.Object? && Ascii("iat") in r.value.fields
    ensures payload.Object? ==>
              && r.value.fields.Keys == payload.fields.Keys + {Ascii("iat")}
              && (forall k :: k in payload.fields ==> r.value.fields[k] == payload.fields[k])
    ensures r.Some? && (payload.Object? ==> Ascii("iat") !in payload.fields) ==> r.value.fields[Ascii("iat")] == Number(now)
  {
    match payload
    case Object(fields) => Some(if IAT in fields then payload else Object(fields[IAT := Number(now)]))
    case Null => Some(Object(map[IAT := Number(now)]))
    case _ => None
  }

  // ----- locating the dots -----

  /** `find('.', from)`. */
  function Find(s: Text, from: nat): (r: Option<nat>)
    ensures r.Some? ==> from <= r.value < |s| && s[r.value] == DOT && DOT !in s[from..r.value]
    ensures r.None? && from <= |s| ==> DOT !in s[from..]
    decreases |s| - from
  {
    if from >= |s| then None
    else if s[from] == DOT then Some(from)
    else
      var r := Find(s, from + 1);
      assert r.Some? ==> s[from..r.value] == [s[from]] + s[from + 1..r.value];
      assert s[from..] == [s[from]] + s[from + 1..];
      r
  }

  function Dots(s: Text): nat {
    if s == [] then 0 else (if s[0] == DOT then 1 else 0) + Dots(s[1..])
  }

  lemma {:induction false} DotsConcat(s: Text, t: Text)
    ensures Dots(s + t) == Dots(s) + Dots(t)
  {
    if s == [] {
      assert s + t == t;
    } else {
      assert (s + t)[1..] == s[1..] + t;
      DotsConcat(s[1..], t);
    }
  }

  lemma {:induction false} NoDots(s: Text)
    ensures Dots(s) == 0 <==> DOT !in s
  {
    if s != [] {
      assert s == [s[0]] + s[1..];
      NoDots(s[1..]);
    }
  }

  /** Where the first two dots are, if there are two. */
  datatype Split = NoFirstDot | NoSecondDot | At(first: nat, second: nat)

  function SplitToken(token: Text): (r: Split)
    ensures r.At? ==> r.first < r.second < |token|
  {
    match Find(token, 0)
    case None => NoFirstDot
    case Some(i) =>
      match Find(token, i + 1)
      case None => NoSecondDot
      case Some(j) => At(i, j)
  }

  /** The dots found delimit a header and a payload, neither of which holds a dot. */
  lemma SplitParts(header: Text, payload: Text, rest: Text)
    requires DOT !in header && DOT !in payload
    ensures SplitToken(header + [DOT] + payload + [DOT] + rest) == At(|header|, |header| + 1 + |payload|)
  {
    var token := header + [DOT] + payload + [DOT] + rest;
    var i, j := |header|, |header| + 1 + |payload|;
    FindUnique(token, 0, i);
    FindUnique(token, i + 1, j);
  }

  lemma FindUnique(s: Text, from: nat, i: nat)
    requires from <= i < |s| && s[i] == DOT && forall k :: from <= k < i ==> s[k] != DOT
    ensures Find(s, from) == Some(i)
    decreases i - from
  {
    if from < i {
      FindUnique(s, from + 1, i);
    }
  }

  lemma SplitShape(token: Text)
    requires SplitToken(token).At?
    ensures var At(i, j) := SplitToken(token);
            && DOT !in token[..i] && DOT !in token[i + 1..j]
            && token == token[..i] + [DOT] + token[i + 1..j] + [DOT] + token[j + 1..]
            && token[..j] == token[..i] + [DOT] + token[i + 1..j]
  {}

  // ----- the operations -----

  datatype Outcome =
    | Claims(header: Json, payload: Json)
    | MissingFirstDot
    | MissingSecondDot
    | SignatureMismatch
    | MalformedJson

  function Decode(codec: Codec, token: Text): Outcome {
    match SplitToken(token)
    case NoFirstDot => MissingFirstDot
    case NoSecondDot => MissingSecondDot
    case At(i, j) =>
      var header := codec.parse(Base64Url.Decode(token[..i]));
      var payload := codec.parse(Base64Url.Decode(token[i + 1..j]));
      if header.Some? && payload.Some? then Claims(header.value, payload.value) else MalformedJson
  }

  function Verify(codec: Codec, secret: Text, token: Text): Outcome {
    match SplitToken(token)
    case NoFirstDot => MissingFirstDot
    case NoSecondDot => MissingSecondDot
    case At(_, j) =>
      if token[j + 1..] != Base64Url.Encode(Hmac.Mac(secret, token[..j])) then SignatureMismatch else Decode(codec, token)
  }

  function Sign(codec: Codec, secret: Text, payload: Json, now: int): Option<Text> {
    var header := codec.dump(HEADER);
    var stamped := Stamped(payload, now);
    if stamped.None? || header.None? then None
    else
      var body := codec.dump(stamped.value);
      if body.None? then None
      else
        var input := Base64Url.Encode(header.value) + [DOT] + Base64Url.Encode(body.value);
        Some(input + [DOT] + Base64Url.Encode(Hmac.Mac(secret, input)))
  }

  /** `constant_time_equal`: the OR of the XORs is zero exactly for equal strings. */
  method ConstantTimeEqual(a: Text, b: Text) returns (equal: bool)
    ensures equal <==> a == b
  {
    if |a| != |b| {
      return false;
    }
    var diff := 0;
    for i := 0 to |a|
      invariant diff == 0 <==> a[..i] == b[..i]
      invariant 0 <= diff
    {
      OrIsZero(diff, Xor(a[i], b[i]));
      XorIsZero(a[i], b[i]);
      assert a[..i + 1] == a[..i] + [a[i]] && b[..i + 1] == b[..i] + [b[i]];
      diff := Or(diff, Xor(a[i], b[i]));
    }
    assert a[..|a|] == a && b[..|b|] == b;
    equal := diff == 0;
  }

  /** `decode_jwt`. */
  method DecodeJwt(codec: Codec, token: Text) returns (r: Outcome)
    ensures r == Decode(codec, token)
  {
    var firstDot := Find(token, 0);
    if firstDot.None? {
      return MissingFirstDot;
    }
    var secondDot := Find(token, firstDot.value + 1);
    if secondDot.None? {
      return MissingSecondDot;
    }
    var headerText := Base64Url.DecodeStreaming(token[..firstDot.value]);
    var payloadText := Base64Url.DecodeStreaming(token[firstDot.value + 1..secondDot.value]);
    var header, payload := codec.parse(headerText), codec.parse(payloadText);
    r := if header.Some? && payload.Some? then Claims(header.value, payload.value) else MalformedJson;
  }

  /** `JwtSigner::verify`. */
  method VerifyToken(codec: Codec, secret: Text, token: Text) returns (r: Outcome)
    ensures r == Verify(codec, secret, token)
  {
    hide Base64Url.Encode, Base64Url.Decode, Hmac.Mac, Decode;
    var firstDot := Find(token, 0);
    if firstDot.None? {
      return MissingFirstDot;
    }
    var secondDot := Find(token, firstDot.value + 1);
    if secondDot.None? {
      return MissingSecondDot;
    }
    var mac := Hmac.HmacSha256(secret, token[..secondDot.value]);
    var expected := Base64Url.EncodeStreaming(mac);
    var same := ConstantTimeEqual(token[secondDot.value + 1..], expected);
    if !same {
      return SignatureMismatch;
    }
    r := DecodeJwt(codec, token);
  }

  /** `JwtSigner::sign`; `None` when the JSON library throws. */
  method SignPayload(codec: Codec, secret: Text, payload: Json, now: int) returns (r: Option<Text>)
    ensures r == Sign(codec, secret, payload, now)
  {
    var stamped := Stamped(payload, now);
    if stamped.None? {
      return None;
    }
    var header := codec.dump(HEADER);
    if header.None? {
      return None;
    }
    var body := codec.dump(stamped.value);
    if body.None? {
      return None;
    }
    var h := Base64Url.EncodeStreaming(header.value);
    var p := Base64Url.EncodeStreaming(body.value);
    var input := h + [DOT] + p;
    var mac := Hmac.HmacSha256(secret, input);
    var sig := Base64Url.EncodeStreaming(mac);
    r := Some(input + [DOT] + sig);
  }

  // ----- the laws -----

  lemma EncodingHasNoDot(data: Text)
    ensures DOT !in Base64Url.Encode(data)
  {
  }

  /** Fewer than two dots are told apart by both operations, whatever else the text holds. */
  lemma FewDots(codec: Codec, secret: Text, token: Text)
    ensures Dots(token) == 0 <==> Decode(codec, token) == MissingFirstDot
    ensures Dots(token) == 1 <==> Decode(codec, token) == MissingSecondDot
    ensures Dots(token) == 0 <==> Verify(codec, secret, token) == MissingFirstDot
    ensures Dots(token) == 1 <==> Verify(codec, secret, token) == MissingSecondDot
  {
    hide Base64Url.Encode, Base64Url.Decode, Hmac.Mac;
    SplitCounts(token);
  }

  lemma SplitCounts(token: Text)
    ensures SplitToken(token).NoFirstDot? <==> Dots(token) == 0
    ensures SplitToken(token).NoSecondDot? <==> Dots(token) == 1
  {
    hide Dots;
    NoDots(token);
    var first := Find(token, 0);
    if first.Some? {
      var i := first.value;
      assert token == token[..i] + [DOT] + token[i + 1..];
      NoDots(token[..i]);
      NoDots(token[i + 1..]);
      DotsAround(token[..i], token[i + 1..]);
    } else {
      assert token[0..] == token;
    }
  }

  lemma DotsAround(s: Text, t: Text)
    ensures Dots(s + [DOT] + t) == Dots(s) + 1 + Dots(t)
  {
    DotsConcat(s, [DOT]);
    DotsConcat(s + [DOT], t);
  }

  /**
   Every other token is header '.' payload '.' rest, the first two without dots. Decoding parses what the
   first two decode to; verifying does the same if the rest is the encoded MAC of header '.' payload, and
   fails otherwise.
   */
  lemma TokenExactly(codec: Codec, secret: Text, header: Text, payload: Text, rest: Text)
    requires DOT !in header && DOT !in payload
    ensures var token := header + [DOT] + payload + [DOT] + rest;
            var h, p := codec.parse(Base64Url.Decode(header)), codec.parse(Base64Url.Decode(payload));
            var claims := if h.None? || p.None? then MalformedJson else Claims(h.value, p.value);
            && Decode(codec, token) == claims
            && Verify(codec, secret, token) ==
                 if rest == Base64Url.Encode(Hmac.Mac(secret, header + [DOT] + payload)) then claims else SignatureMismatch
  {
    hide Base64Url.Encode, Base64Url.Decode, Hmac.Mac, Find, SplitToken;
    var input := header + [DOT] + payload;
    var token := input + [DOT] + rest;
    SplitParts(header, payload, rest);
    assert token[..|header|] == header && token[|header| + 1..|input|] == payload;
    assert token[..|input|] == input && token[|input| + 1..] == rest;
  }

  lemma TwoDotsSplit(token: Text) returns (header: Text, payload: Text, rest: Text)
    requires Dots(token) >= 2
    ensures DOT !in header && DOT !in payload && token == header + [DOT] + payload + [DOT] + rest
  {
    hide Dots;
    SplitCounts(token);
    SplitShape(token);
    var At(i, j) := SplitToken(token);
    header, payload, rest := token[..i], token[i + 1..j], token[j + 1..];
  }

  /**
   Signing fails exactly when the payload takes no claims or the JSON library throws. What it produces is
   one-dot text, a dot, and the encoded MAC of exactly that text.
   */
  lemma SignExactly(codec: Codec, secret: Text, payload: Json, now: int)
    ensures Sign(codec, secret, payload, now).None? <==>
              || Stamped(payload, now).None?
              || codec.dump(HEADER).None?
              || codec.dump(Stamped(payload, now).value).None?
    ensures Sign(codec, secret, payload, now).Some? ==>
              exists input :: Dots(input) == 1
                && Sign(codec, secret, payload, now).value == input + [DOT] + Base64Url.Encode(Hmac.Mac(secret, input))
  {
    hide Base64Url.Encode, Base64Url.Decode, Hmac.Mac, Dots, Stamped;
    if Sign(codec, secret, payload, now).Some? {
      var header, body := codec.dump(HEADER).value, codec.dump(Stamped(payload, now).value).value;
      var h, p := Base64Url.Encode(header), Base64Url.Encode(body);
      EncodingHasNoDot(header);
      EncodingHasNoDot(body);
      OneDot(h, p);
      var input := h + [DOT] + p;
      assert Dots(input) == 1 && Sign(codec, secret, payload, now).value == input + [DOT] + Base64Url.Encode(Hmac.Mac(secret, input));
    }
  }

  /** Every token that `sign` produces verifies and yields the signed header and payload. */
  lemma SignedTokenVerifies(codec: Codec, secret: Text, payload: Json, now: int)
    requires Sign(codec, secret, payload, now).Some?
    requires ReadsBack(codec, HEADER) && ReadsBack(codec, Stamped(payload, now).value)
    ensures Verify(codec, secret, Sign(codec, secret, payload, now).value) == Claims(HEADER, Stamped(payload, now).value)
  {
    hide Base64Url.Encode, Base64Url.Decode, Hmac.Mac, Verify, Stamped, HEADER;
    var header, body := codec.dump(HEADER).value, codec.dump(Stamped(payload, now).value).value;
    var h, p := Base64Url.Encode(header), Base64Url.Encode(body);
    var mac := Base64Url.Encode(Hmac.Mac(secret, h + [DOT] + p));
    assert Sign(codec, secret, payload, now).value == h + [DOT] + p + [DOT] + mac;
    hide Sign;
    EncodingHasNoDot(header);
    EncodingHasNoDot(body);
    TokenExactly(codec, secret, h, p, mac);
    Base64Url.RoundTrip(header);
    Base64Url.RoundTrip(body);
  }

  /** The header says HS256 and JWT, and nothing else. */
  lemma HeaderFields()
    ensures HEADER.Object? && HEADER.fields.Keys == {Ascii("alg"), Ascii("typ")}
    ensures HEADER.fields[Ascii("alg")] == Str(Ascii("HS256")) && HEADER.fields[Ascii("typ")] == Str(Ascii("JWT"))
  {
    assert Ascii("alg")[0] != Ascii("typ")[0];
  }

  ghost predicate PassesSignatureCheck(codec: Codec, secret: Text, token: Text) {
    var r := Verify(codec, secret, token);
    !r.MissingFirstDot? && !r.MissingSecondDot? && !r.SignatureMismatch?
  }

  /** The only texts with a given signing input that carry a valid signature. */
  ghost predicate IsSigned(secret: Text, token: Text, input: Text) {
    Dots(input) == 1 && token == input + [DOT] + Base64Url.Encode(Hmac.Mac(secret, input))
  }

  /**
   The signature check passes exactly for a one-dot input followed by a dot and the encoded MAC of that
   input; such a token has exactly two dots.
   */
  lemma SignatureCheckExact(codec: Codec, secret: Text, token: Text)
    ensures PassesSignatureCheck(codec, secret, token) <==> exists input :: IsSigned(secret, token, input)
    ensures PassesSignatureCheck(codec, secret, token) ==> Dots(token) == 2
  {
    hide PassesSignatureCheck, IsSigned, Dots;
    if PassesSignatureCheck(codec, secret, token) {
      var input := PassesOnlySigned(codec, secret, token);
      SignedHasTwoDots(secret, token, input);
    }
    if input :| IsSigned(secret, token, input) {
      SignedPasses(codec, secret, token, input);
    }
  }

  lemma PassesOnlySigned(codec: Codec, secret: Text, token: Text) returns (input: Text)
    requires PassesSignatureCheck(codec, secret, token)
    ensures IsSigned(secret, token, input)
  {
    hide Base64Url.Encode, Base64Url.Decode, Hmac.Mac, Find, SplitToken, Dots;
    SplitShape(token);
    var At(i, j) := SplitToken(token);
    OneDot(token[..i], token[i + 1..j]);
    input := token[..j];
  }

  lemma SignedPasses(codec: Codec, secret: Text, token: Text, input: Text)
    requires IsSigned(secret, token, input)
    ensures PassesSignatureCheck(codec, secret, token)
  {
    hide Base64Url.Encode, Base64Url.Decode, Hmac.Mac, Find, SplitToken, Dots;
    OneDotSplits(input);
    var k :| 0 <= k < |input| && input[k] == DOT && DOT !in input[..k] && DOT !in input[k + 1..];
    assert token == input[..k] + [DOT] + input[k + 1..] + [DOT] + Base64Url.Encode(Hmac.Mac(secret, input));
    SplitParts(input[..k], input[k + 1..], Base64Url.Encode(Hmac.Mac(secret, input)));
    assert token[..|input|] == input;
  }

  lemma OneDot(header: Text, payload: Text)
    requires DOT !in header && DOT !in payload
    ensures Dots(header + [DOT] + payload) == 1
  {
    NoDots(header);
    NoDots(payload);
    DotsConcat(header, [DOT]);
    DotsConcat(header + [DOT], payload);
  }

  lemma SignedHasTwoDots(secret: Text, token: Text, input: Text)
    requires IsSigned(secret, token, input)
    ensures Dots(token) == 2
  {
    EncodingHasNoDot(Hmac.Mac(secret, input));
    NoDots(Base64Url.Encode(Hmac.Mac(secret, input)));
    DotsConcat(input, [DOT]);
    DotsConcat(input + [DOT], Base64Url.Encode(Hmac.Mac(secret, input)));
  }

  lemma {:induction false} OneDotSplits(s: Text)
    requires Dots(s) == 1
    ensures exists k :: 0 <= k < |s| && s[k] == DOT && DOT !in s[..k] && DOT !in s[k + 1..]
  {
    if s[0] == DOT {
      NoDots(s[1..]);
      assert DOT !in s[..0] && DOT !in s[0 + 1..];
    } else {
      OneDotSplits(s[1..]);
      var t := s[1..];
      var k :| 0 <= k < |t| && t[k] == DOT && DOT !in t[..k] && DOT !in t[k + 1..];
      assert s[..k + 1] == [s[0]] + t[..k] && s[k + 1 + 1..] == t[k + 1..];
    }
  }
}
