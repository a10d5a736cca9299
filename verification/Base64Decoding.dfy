/** What the decoder makes of any text, as the bits of its alphabet characters. */
module Base64Decoding {
  import opened Wrappers
  import opened Bytes
  import opened Base64Url

  /** The values of the alphabet characters of a text, in order. */
  function Sextets(s: string): seq<Sextet> {
    if s == "" then []
    else
      var front := Sextets(s[..|s| - 1]);
      match ValueOf(s[|s| - 1])
      case None => front
      case Some(v) => front + [v]
  }

  /** Byte `j` of a row of sextets: the eight bits from bit `8 * j` on. */
  function OctetAt(vs: seq<Sextet>, j: nat): byte
    requires j * 4 / 3 + 1 < |vs|
  {
    var a: int, b: int := vs[j * 4 / 3], vs[j * 4 / 3 + 1];
    if j % 3 == 0 then a * 4 + b / 16
    else if j % 3 == 1 then a % 16 * 16 + b / 4
    else a % 4 * 64 + b
  }

  /** All bytes whose eight bits are there. */
  function Octets(vs: seq<Sextet>): (r: seq<byte>)
    ensures |r| == |vs| * 6 / 8
  {
    seq(|vs| * 3 / 4, j requires 0 <= j < |vs| * 3 / 4 => OctetAt(vs, j))
  }

  /** There is padding after the last alphabet character of the first `n` characters. */
  predicate AfterPad(t: string, n: nat)
    requires n <= |t|
  {
    exists i | 0 <= i < n :: t[i] == '=' && forall j | i < j < n :: ValueOf(t[j]).None?
  }

  /** The padding that ends the input: the first one after three characters of a group of four, the second
      one after two. */
  predicate StopsAt(t: string, k: nat)
    requires k < |t|
  {
    t[k] == '=' &&
    var q := |Sextets(t[..k])| % 4;
    q == 3 || (q == 2 && AfterPad(t, k))
  }

  /** Where the input ends. */
  function Cut(t: string, from: nat): (k: nat)
    requires from <= |t|
    ensures from <= k <= |t| && forall j | from <= j < k :: !StopsAt(t, j)
    ensures k < |t| ==> StopsAt(t, k)
    decreases |t| - from
  {
    if from == |t| || StopsAt(t, from) then from else Cut(t, from + 1)
  }

  // ----- The decoder's state ---------------------------------------------------------------------

  function Left(vs: seq<Sextet>): (left: nat)
    ensures left < 64 && (|vs| % 4 == 2 ==> left < 16) && (|vs| % 4 == 3 ==> left < 4)
  {
    var q := |vs| % 4;
    if q == 0 then 0 else NextLeft(q - 1, vs[|vs| - 1])
  }

  function Pads(t: string, n: nat): nat
    requires n <= |t|
  {
    if |Sextets(t[..n])| % 4 == 2 && AfterPad(t, n) then 1 else 0
  }

  function Attach(xs: seq<byte>, r: Result<seq<byte>, DecodeError>): Result<seq<byte>, DecodeError> {
    match r
    case Ok(rest) => Ok(xs + rest)
    case Err(e) => Err(e)
  }

  /** The bytes of the first `n` characters and what the decoder adds to them. */
  function Total(t: string, n: nat): Result<seq<byte>, DecodeError>
    requires n <= |t|
  {
    var vs := Sextets(t[..n]);
    Attach(Octets(vs), Scan(t[n..], |vs| % 4, Left(vs), Pads(t, n)))
  }

  lemma OneMore(t: string, n: nat)
    requires n < |t|
    ensures t[n..][0] == t[n] && t[n..][1..] == t[n + 1..]
    ensures Sextets(t[..n + 1]) ==
            match ValueOf(t[n]) { case None => Sextets(t[..n]) case Some(v) => Sextets(t[..n]) + [v] }
  {
    assert t[..n + 1][..n] == t[..n];
  }

  lemma PadsAfter(t: string, n: nat)
    requires n < |t|
    ensures t[n] == '=' ==> AfterPad(t, n + 1)
    ensures ValueOf(t[n]).Some? ==> !AfterPad(t, n + 1)
    ensures t[n] != '=' && ValueOf(t[n]).None? ==> (AfterPad(t, n + 1) <==> AfterPad(t, n))
  {
    if AfterPad(t, n) && ValueOf(t[n]).None? {
      var i :| 0 <= i < n && t[i] == '=' && forall j | i < j < n :: ValueOf(t[j]).None?;
      assert forall j | i < j < n + 1 :: ValueOf(t[j]).None?;
    }
  }

  /** One more sextet completes a byte, except at the start of a group. */
  lemma OctetsAppend(vs: seq<Sextet>, v: Sextet)
    ensures Octets(vs + [v]) == if |vs| % 4 == 0 then Octets(vs) else Octets(vs) + [OctetAt(vs + [v], |vs| * 3 / 4)]
  {
    var more := vs + [v];
    forall j | 0 <= j < |Octets(vs)| ensures Octets(more)[j] == Octets(vs)[j] {
      EarlierOctet(vs, v, j);
    }
    Lengths(|vs|, |vs| / 4);
  }

  lemma EarlierOctet(vs: seq<Sextet>, v: Sextet, j: nat)
    requires j < |vs| * 3 / 4
    ensures OctetAt(vs + [v], j) == OctetAt(vs, j)
  {
    assert j * 4 / 3 + 1 < |vs|;
  }

  lemma Lengths(n: nat, m: nat)
    requires m == n / 4
    ensures (n + 1) * 3 / 4 == if n % 4 == 0 then n * 3 / 4 else n * 3 / 4 + 1
  {
    assert n == 4 * m + n % 4;
  }

  lemma AttachAppend(xs: seq<byte>, b: byte, r: Result<seq<byte>, DecodeError>)
    ensures Attach(xs, Prepend(b, r)) == Attach(xs + [b], r)
  {
    if r.Ok? {
      assert xs + ([b] + r.value) == xs + [b] + r.value;
    }
  }

  lemma AttachNothing(r: Result<seq<byte>, DecodeError>)
    ensures Attach([], r) == r
  {
    if r.Ok? {
      assert [] + r.value == r.value;
    }
  }

  /** The byte that one more sextet completes, from the bits left over. */
  function NextOctet(q: nat, left: nat, v: Sextet): byte
    requires (q == 1 && left < 64) || (q == 2 && left < 16) || (q == 3 && left < 4)
  {
    if q == 1 then left * 4 + v / 16 else if q == 2 then left * 16 + v / 4 else left * 64 + v
  }

  lemma LastOctet(vs: seq<Sextet>, v: Sextet)
    requires |vs| % 4 != 0
    ensures OctetAt(vs + [v], |vs| * 3 / 4) == NextOctet(|vs| % 4, Left(vs), v)
  {
    LastIndex(|vs|, |vs| / 4);
  }

  lemma LastIndex(n: nat, m: nat)
    requires m == n / 4 && n % 4 != 0
    ensures var j := n * 3 / 4; j * 4 / 3 == n - 1 && j % 3 == n % 4 - 1
  {
    var j := n * 3 / 4;
    if n % 4 == 1 { assert j == 3 * m; } else if n % 4 == 2 { assert j == 3 * m + 1; } else { assert j == 3 * m + 2; }
  }

  lemma ScanNext(c: char, v: Sextet, more: string, q: nat, left: nat, pads: nat)
    requires ValueOf(c) == Some(v) && c != '='
    requires q < 4 && (q == 1 ==> left < 64) && (q == 2 ==> left < 16) && (q == 3 ==> left < 4)
    ensures var rest := Scan(more, (q + 1) % 4, NextLeft(q, v), 0);
      Scan([c] + more, q, left, pads) == if q == 0 then rest else Prepend(NextOctet(q, left, v), rest)
  {
    assert ([c] + more)[1..] == more;
  }

  /** One alphabet character. */
  lemma TakesCharacter(vs: seq<Sextet>, v: Sextet, c: char, more: string, pads: nat)
    requires ValueOf(c) == Some(v) && c != '='
    ensures Attach(Octets(vs), Scan([c] + more, |vs| % 4, Left(vs), pads)) ==
            Attach(Octets(vs + [v]), Scan(more, |vs + [v]| % 4, Left(vs + [v]), 0))
  {
    var q := |vs| % 4;
    ScanNext(c, v, more, q, Left(vs), pads);
    OctetsAppend(vs, v);
    LeftAppend(vs, v);
    if q != 0 {
      LastOctet(vs, v);
      AttachAppend(Octets(vs), NextOctet(q, Left(vs), v), Scan(more, (q + 1) % 4, NextLeft(q, v), 0));
    }
  }

  lemma LeftAppend(vs: seq<Sextet>, v: Sextet)
    ensures |vs + [v]| % 4 == (|vs| % 4 + 1) % 4 && Left(vs + [v]) == NextLeft(|vs| % 4, v)
  {
  }

  lemma TotalStep(t: string, n: nat)
    requires n < |t| && !StopsAt(t, n)
    ensures Total(t, n) == Total(t, n + 1)
  {
    OneMore(t, n);
    PadsAfter(t, n);
    if ValueOf(t[n]).Some? {
      assert t[n..] == [t[n]] + t[n + 1..];
      TakesCharacter(Sextets(t[..n]), ValueOf(t[n]).value, t[n], t[n + 1..], Pads(t, n));
    }
  }

  lemma {:induction false} TotalFrom(t: string, n: nat, k: nat)
    requires n <= k <= |t| && forall j | n <= j < k :: !StopsAt(t, j)
    ensures Total(t, n) == Total(t, k)
    decreases k - n
  {
    if n < k {
      TotalStep(t, n);
      TotalFrom(t, n + 1, k);
    }
  }

  /** The result at the place where the input ends. */
  lemma TotalAtCut(t: string, k: nat)
    requires k <= |t| && (k < |t| ==> StopsAt(t, k))
    ensures var vs := Sextets(t[..k]);
      Total(t, k) == if k < |t| || |vs| % 4 == 0 then Ok(Octets(vs)) else Err(Incomplete)
  {
    var vs := Sextets(t[..k]);
    if k < |t| {
      OneMore(t, k);
    }
    assert Octets(vs) + [] == Octets(vs);
  }

  /** Every text that is all ASCII is completed to groups of four and cut where its padding ends it. What the
      decoder returns is then the bits of the alphabet characters up to there, in whole bytes; only text
      that breaks off inside a group is refused. */
  lemma DecodeExact(s: string)
    ensures var padded := s + Repeat('=', (4 - |s| % 4) % 4);
      var k := Cut(padded, 0);
      var vs := Sextets(padded[..k]);
      Decode(s) ==
        if exists c <- s :: c as int > 127 then Err(NonAscii)
        else if k < |padded| || |vs| % 4 == 0 then Ok(Octets(vs))
        else Err(Incomplete)
  {
    var padded := s + Repeat('=', (4 - |s| % 4) % 4);
    DecodeScans(s);
    PaddingKeepsAscii(s, (4 - |s| % 4) % 4);
    ScanExact(padded);
  }

  lemma DecodeScans(s: string)
    ensures var padded := s + Repeat('=', (4 - |s| % 4) % 4);
      Decode(s) == if exists c <- padded :: c >= 128 as char then Err(NonAscii) else Scan(padded, 0, 0, 0)
  {
    var n := |s| % 4;
    if n == 0 {
      assert s + Repeat('=', (4 - n) % 4) == s;
    } else {
      assert (4 - n) % 4 == 4 - n;
    }
  }

  lemma PaddingKeepsAscii(s: string, n: nat)
    ensures (exists c <- s + Repeat('=', n) :: c >= 128 as char) <==> exists c <- s :: c as int > 127
  {
    var padded := s + Repeat('=', n);
    assert forall c <- s :: c in padded;
    assert forall c <- padded :: c in s || c == '=';
  }

  lemma ScanExact(t: string)
    ensures var k := Cut(t, 0);
      var vs := Sextets(t[..k]);
      Scan(t, 0, 0, 0) == if k < |t| || |vs| % 4 == 0 then Ok(Octets(vs)) else Err(Incomplete)
  {
    var k := Cut(t, 0);
    TotalFrom(t, 0, k);
    TotalAtCut(t, k);
    TotalAtStart(t);
  }

  lemma TotalAtStart(t: string)
    ensures Total(t, 0) == Scan(t, 0, 0, 0)
  {
    assert t[0..] == t && t[..0] == "" && Octets([]) == [];
    AttachNothing(Scan(t, 0, 0, 0));
  }
}
