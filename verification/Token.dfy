/** Signed tokens: creation and verification (section 7.1 of RFC 7515). */
module Token {
  import opened Wrappers
  import opened Bytes
  import opened Base64Url

  /** A claim value, as far as verification looks at it. Numbers can be compared with the clock;
      strings, lists and objects cannot. */
  datatype Json = Null | Number(n: real) | Opaque(text: string)

  type Claims = map<string, Json>

  /** JSON and HMAC-SHA256, which the token code takes from libraries. */
  datatype Library = Library(
    dumps: Claims -> seq<byte>,
    loads: seq<byte> -> Option<Claims>,
    mac: (seq<byte>, string) -> seq<byte>,
    header: seq<byte>)

  /** JSON gives these claims back. */
  predicate Survives(lib: Library, c: Claims) { lib.loads(lib.dumps(c)) == Some(c) }

  function Truncate(r: real): int {
    if r >= 0.0 then r.Floor else -((-r).Floor)
  }

  function SetDefault(c: Claims, key: string, v: Json): Claims {
    if key in c then c else c[key := v]
  }

  /** The claims with issue time and, for a non-zero lifetime, expiry, unless already given. */
  function WithTimes(payload: Claims, hours: real, now: int): Claims {
    var c := SetDefault(payload, "iat", Number(now as real));
    if hours != 0.0 then SetDefault(c, "exp", Number((now + Truncate(hours * 3600.0)) as real)) else c
  }

  function CreateToken(lib: Library, payload: Claims, key: seq<byte>, hours: real, now: int): string {
    var input := Encode(lib.header) + "." + Encode(lib.dumps(WithTimes(payload, hours, now)));
    input + "." + Encode(lib.mac(key, input))
  }

  datatype Rejection = Format | PartCount | SignatureEncoding | SignatureMismatch | BadPayload | Expired | NotComparable

  function Split(s: string, c: char): (parts: seq<string>)
    ensures parts != []
  {
    if s == "" then [""]
    else
      var rest := Split(s[1..], c);
      if s[0] == c then [""] + rest else [[s[0]] + rest[0]] + rest[1..]
  }

  /** The expiry test: absent and null never expire, and the second named by `exp` is still valid. */
  function CheckExpiry(c: Claims, now: int): Result<Claims, Rejection> {
    if "exp" !in c || c["exp"].Null? then Ok(c)
    else if c["exp"].Opaque? then Err(NotComparable)
    else if now as real > c["exp"].n then Err(Expired)
    else Ok(c)
  }

  function VerifyToken(lib: Library, token: string, key: seq<byte>, now: int): Result<Claims, Rejection> {
    if token == "" then Err(Format)
    else
      var parts := Split(token, '.');
      if |parts| != 3 then Err(PartCount)
      else match Decode(parts[2])
        case Err(_) => Err(SignatureEncoding)
        case Ok(actual) =>
          if lib.mac(key, parts[0] + "." + parts[1]) != actual then Err(SignatureMismatch)
          else match Decode(parts[1])
            case Err(_) => Err(BadPayload)
            case Ok(bytes) =>
              match lib.loads(bytes)
              case None => Err(BadPayload)
              case Some(c) => CheckExpiry(c, now)
  }

  // ----- Round trip -------------------------------------------------------------------------

  lemma {:induction false} SplitAtDot(a: string, rest: string, c: char)
    requires c !in a
    ensures Split(a + [c] + rest, c) == [a] + Split(rest, c)
    decreases |a|
  {
    var s := a + [c] + rest;
    if a == "" {
      assert s[1..] == rest;
    } else {
      assert a[0] in a;
      assert s[1..] == a[1..] + [c] + rest;
      SplitAtDot(a[1..], rest, c);
      assert [a[0]] + a[1..] == a;
      assert ([a[1..]] + Split(rest, c))[1..] == Split(rest, c);
    }
  }

  lemma {:induction false} SplitNoDot(a: string, c: char)
    requires c !in a
    ensures Split(a, c) == [a]
    decreases |a|
  {
    if a != "" {
      assert a[0] in a;
      SplitNoDot(a[1..], c);
      assert [a[0]] + a[1..] == a;
    }
  }

  lemma ThreeParts(x: string, y: string, z: string)
    requires '.' !in x && '.' !in y && '.' !in z
    ensures Split(x + "." + y + "." + z, '.') == [x, y, z]
  {
    assert x + "." + y + "." + z == x + ['.'] + (y + ['.'] + z);
    SplitAtDot(x, y + ['.'] + z, '.');
    SplitAtDot(y, z, '.');
    SplitNoDot(z, '.');
  }

  /** A created token, verified with any key at any time: with a key that gives another signature it
      is rejected as such; otherwise the answer is the issued claims until the clock has passed
      their expiry, and a rejection after that. */
  lemma VerifyOfCreate(
      lib: Library, payload: Claims, key: seq<byte>, hours: real, issued: int, key': seq<byte>, now: int)
    requires Survives(lib, WithTimes(payload, hours, issued))
    ensures
      var claims := WithTimes(payload, hours, issued);
      var input := Encode(lib.header) + "." + Encode(lib.dumps(claims));
      VerifyToken(lib, CreateToken(lib, payload, key, hours, issued), key', now) ==
        if lib.mac(key', input) != lib.mac(key, input) then Err(SignatureMismatch)
        else CheckExpiry(claims, now)
  {
    var claims := WithTimes(payload, hours, issued);
    var x, y := Encode(lib.header), Encode(lib.dumps(claims));
    var z := Encode(lib.mac(key, x + "." + y));
    RoundTrip(lib.header);
    RoundTrip(lib.dumps(claims));
    RoundTrip(lib.mac(key, x + "." + y));
    ThreeParts(x, y, z);
  }

  /** When the token ends, if it does: the caller's own `exp`, or the lifetime added to the time of issue. */
  function Expiry(payload: Claims, hours: real, issued: int): Json {
    if "exp" in payload then payload["exp"]
    else if hours != 0.0 then Number((issued + Truncate(hours * 3600.0)) as real)
    else Null
  }

  /** With the signing key and any claims, also with times of the caller's own: a token without an end is
      always accepted, one whose end is a number is accepted exactly until then, and any other never is. It
      gives back the claims unchanged, with the time of issue and the end added where they were not given. */
  lemma TokenLifetime(lib: Library, payload: Claims, key: seq<byte>, hours: real, issued: int, now: int)
    requires Survives(lib, WithTimes(payload, hours, issued))
    ensures
      var end := Expiry(payload, hours, issued);
      var r := VerifyToken(lib, CreateToken(lib, payload, key, hours, issued), key, now);
      && (r.Ok? <==> end.Null? || (end.Number? && now as real <= end.n))
      && (r.Err? ==> r.error == if end.Opaque? then NotComparable else Expired)
      && (r.Ok? ==>
            && (forall k <- payload :: k in r.value && r.value[k] == payload[k])
            && r.value.Keys == payload.Keys + {"iat"} + (if hours == 0.0 then {} else {"exp"})
            && ("iat" !in payload ==> r.value["iat"] == Number(issued as real))
            && ("exp" !in payload && hours != 0.0 ==> r.value["exp"] == end))
  {
    VerifyOfCreate(lib, payload, key, hours, issued, key, now);
  }

  /** Rounding towards zero, as `int` does. */
  lemma TruncateIsTowardsZero(r: real)
    ensures r >= 0.0 ==> Truncate(r) as real <= r < Truncate(r) as real + 1.0
    ensures r < 0.0 ==> Truncate(r) as real - 1.0 < r <= Truncate(r) as real
  {
  }

  // ----- Exactly which tokens are accepted -------------------------------------------------------------

  function Dots(s: string): nat {
    if s == "" then 0 else Dots(s[1..]) + if s[0] == '.' then 1 else 0
  }

  function Joined(parts: seq<string>): string
    requires parts != []
  {
    if |parts| == 1 then parts[0] else parts[0] + "." + Joined(parts[1..])
  }

  /** Splitting at dots: as many parts as dots and one more, none with a dot, and joining them gives the text. */
  lemma {:induction false} SplitFacts(s: string)
    ensures var parts := Split(s, '.');
      |parts| == Dots(s) + 1 && NoDots(parts) && Joined(parts) == s
    decreases |s|
  {
    if s != "" {
      var rest := Split(s[1..], '.');
      SplitFacts(s[1..]);
      if s[0] == '.' { AfterDot(rest); } else { AfterOther(s[0], rest); }
      assert s == [s[0]] + s[1..];
    }
  }

  predicate NoDots(parts: seq<string>) { forall p <- parts :: '.' !in p }

  lemma AfterDot(rest: seq<string>)
    requires rest != [] && NoDots(rest)
    ensures NoDots([""] + rest) && Joined([""] + rest) == "." + Joined(rest)
  {
    assert ([""] + rest)[1..] == rest;
    assert "" + "." + Joined(rest) == "." + Joined(rest);
  }

  lemma AfterOther(c: char, rest: seq<string>)
    requires rest != [] && NoDots(rest) && c != '.'
    ensures var parts := [[c] + rest[0]] + rest[1..]; NoDots(parts) && Joined(parts) == [c] + Joined(rest)
  {
    var parts := [[c] + rest[0]] + rest[1..];
    assert rest[0] in rest;
    assert forall p <- rest[1..] :: p in rest;
    if |rest| > 1 {
      assert parts[1..] == rest[1..];
      assert [c] + rest[0] + "." + Joined(rest[1..]) == [c] + (rest[0] + "." + Joined(rest[1..]));
    }
  }

  /** A token of three parts, in every case. */
  lemma VerifyOfParts(lib: Library, h: string, b: string, g: string, key: seq<byte>, now: int)
    requires '.' !in h && '.' !in b && '.' !in g
    ensures VerifyToken(lib, h + "." + b + "." + g, key, now) ==
            if Decode(g).Err? then Err(SignatureEncoding)
            else if Decode(g) != Ok(lib.mac(key, h + "." + b)) then Err(SignatureMismatch)
            else if Decode(b).Err? || lib.loads(Decode(b).value).None? then Err(BadPayload)
            else
              var c := lib.loads(Decode(b).value).value;
              if "exp" !in c || c["exp"].Null? then Ok(c)
              else if c["exp"].Opaque? then Err(NotComparable)
              else if now as real > c["exp"].n then Err(Expired)
              else Ok(c)
  {
    ThreeParts(h, b, g);
  }

  lemma ThreePartsOf(token: string) returns (h: string, b: string, g: string)
    requires Dots(token) == 2
    ensures token == h + "." + b + "." + g && '.' !in h && '.' !in b && '.' !in g
  {
    var parts := Split(token, '.');
    SplitFacts(token);
    h, b, g := parts[0], parts[1], parts[2];
    assert h in parts && b in parts && g in parts;
    var tail := parts[1..];
    assert tail[1..] == [g] && tail[0] == b;
    assert Joined(tail) == b + "." + g;
    assert h + "." + (b + "." + g) == h + "." + b + "." + g;
  }

  /** The token is three parts of which the last one is the signature of the others and the second holds the
      claims, which have not expired. */
  predicate Holds(lib: Library, token: string, key: seq<byte>, now: int, c: Claims, h: string, b: string, g: string) {
    && token == h + "." + b + "." + g && '.' !in h && '.' !in b && '.' !in g
    && Decode(g) == Ok(lib.mac(key, h + "." + b))
    && Decode(b).Ok? && lib.loads(Decode(b).value) == Some(c)
    && ("exp" in c ==> c["exp"].Null? || (c["exp"].Number? && now as real <= c["exp"].n))
  }

  /** Any text at all is accepted, with these claims, if and only if it is such a token; and it is refused for
      its number of parts if and only if it has not two dots. */
  lemma AcceptedIff(lib: Library, token: string, key: seq<byte>, now: int, c: Claims)
    ensures VerifyToken(lib, token, key, now) == Ok(c) <==> exists h, b, g :: Holds(lib, token, key, now, c, h, b, g)
    ensures VerifyToken(lib, token, key, now) == Err(PartCount) <==> token != "" && Dots(token) != 2
    ensures VerifyToken(lib, token, key, now) == Err(Format) <==> token == ""
  {
    SplitFacts(token);
    if Dots(token) == 2 {
      var h, b, g := ThreePartsOf(token);
      VerifyOfParts(lib, h, b, g, key, now);
      assert VerifyToken(lib, token, key, now) == Ok(c) ==> Holds(lib, token, key, now, c, h, b, g);
    }
    if h, b, g :| Holds(lib, token, key, now, c, h, b, g) {
      VerifyOfParts(lib, h, b, g, key, now);
    }
  }
}
