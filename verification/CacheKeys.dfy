/** The text of cache keys and of the epoch counter. */
module CacheKeys {
  import opened Wrappers

  const EPOCH_KEY := "department-tree:epoch"
  const MAX_INT64 := 0x7FFF_FFFF_FFFF_FFFF
  const MIN_INT64 := -0x8000_0000_0000_0000

  // ---- decimal text ----

  function Digit(d: int): (c: char)
    requires 0 <= d < 10
    ensures '0' <= c <= '9'
  {
    '0' + d as char
  }

  function Digits(n: nat): (s: string)
    ensures s != [] && forall i :: 0 <= i < |s| ==> '0' <= s[i] <= '9'
  {
    if n < 10 then [Digit(n)] else Digits(n / 10) + [Digit(n % 10)]
  }

  /** The text fmt writes for %d. */
  function Decimal(n: int): (s: string)
    ensures s != [] && forall i :: 0 <= i < |s| ==> s[i] != ':'
  {
    if n < 0 then "-" + Digits(-n) else Digits(n)
  }

  predicate IsDigits(s: string) {
    s != [] && forall i :: 0 <= i < |s| ==> '0' <= s[i] <= '9'
  }

  function DigitsValue(s: string): nat
    requires forall i :: 0 <= i < |s| ==> '0' <= s[i] <= '9'
  {
    if s == [] then 0 else DigitsValue(s[..|s| - 1]) * 10 + (s[|s| - 1] as int - '0' as int)
  }

  /** strconv.ParseInt in base 10 for 64 bits: an optional sign, digits, and a value in range. */
  function ParseInt(s: string): Option<int> {
    var digits := if s != [] && (s[0] == '-' || s[0] == '+') then s[1..] else s;
    if !IsDigits(digits) then None
    else
      var n: int := if s[0] == '-' then 0 - DigitsValue(digits) else DigitsValue(digits);
      if MIN_INT64 <= n <= MAX_INT64 then Some(n) else None
  }

  lemma {:induction false} DigitsRoundTrip(n: nat)
    ensures DigitsValue(Digits(n)) == n
  {
    if n >= 10 {
      DigitsRoundTrip(n / 10);
      var s := Digits(n);
      assert s[..|s| - 1] == Digits(n / 10);
    }
  }

  lemma ParseDecimal(n: int)
    requires MIN_INT64 <= n <= MAX_INT64
    ensures ParseInt(Decimal(n)) == Some(n)
  {
    if n < 0 {
      DigitsRoundTrip(-n);
      assert Decimal(n)[1..] == Digits(-n);
    } else {
      DigitsRoundTrip(n);
    }
  }

  lemma DecimalShape(n: int)
    ensures Decimal(n)[0] == '-' <==> n < 0
    ensures n < 0 ==> Decimal(n)[1..] == Digits(-n)
    ensures n >= 0 ==> Decimal(n) == Digits(n)
  {
  }

  lemma DecimalInjective(m: int, n: int)
    requires Decimal(m) == Decimal(n)
    ensures m == n
  {
    DecimalShape(m);
    DecimalShape(n);
    DigitsRoundTrip(if m < 0 then -m else m);
    DigitsRoundTrip(if n < 0 then -n else n);
  }

  // ---- tree keys ----

  function Flag(b: bool): (s: string)
    ensures forall i :: 0 <= i < |s| ==> s[i] != ':'
  {
    if b then "true" else "false"
  }

  function TreeKey(epoch: int, id: int, depth: int, withEmployees: bool): string {
    "department-tree:v" + Decimal(epoch) + ":id=" + Decimal(id) + ":depth=" + Decimal(depth)
    + ":employees=" + Flag(withEmployees)
  }

  ghost predicate NoColon(s: string) {
    forall i :: 0 <= i < |s| ==> s[i] != ':'
  }

  lemma CutPrefix(prefix: string, a: string, b: string)
    requires prefix + a == prefix + b
    ensures a == b
  {
    assert a == (prefix + a)[|prefix|..] && b == (prefix + b)[|prefix|..];
  }

  /** A field that ends at the first colon is determined by the text it starts. */
  lemma {:induction false} CutField(a: string, sep: string, u: string, b: string, v: string)
    requires a + sep + u == b + sep + v
    requires sep != [] && sep[0] == ':' && NoColon(a) && NoColon(b)
    ensures a == b && u == v
    decreases |a|
  {
    var s, t := a + sep + u, b + sep + v;
    assert s[0] == (if a == [] then ':' else a[0]);
    assert t[0] == (if b == [] then ':' else b[0]);
    if a == [] || b == [] {
      assert a == b;
      assert u == s[|sep|..] && v == t[|sep|..];
    } else {
      assert s[1..] == a[1..] + sep + u && t[1..] == b[1..] + sep + v;
      CutField(a[1..], sep, u, b[1..], v);
      assert a == [a[0]] + a[1..] && b == [b[0]] + b[1..];
    }
  }

  lemma CutKey(p: string, e1: string, e2: string, q: string, i1: string, i2: string, r: string,
               d1: string, d2: string, s: string, f1: string, f2: string)
    requires p + e1 + q + i1 + r + d1 + s + f1 == p + e2 + q + i2 + r + d2 + s + f2
    requires q != [] && q[0] == ':' && r != [] && r[0] == ':' && s != [] && s[0] == ':'
    requires NoColon(e1) && NoColon(e2) && NoColon(i1) && NoColon(i2) && NoColon(d1) && NoColon(d2)
    ensures e1 == e2 && i1 == i2 && d1 == d2 && f1 == f2
  {
    var x1, x2 := d1 + s + f1, d2 + s + f2;
    var w1, w2 := i1 + r + x1, i2 + r + x2;
    assert p + e1 + q + i1 + r + d1 + s + f1 == p + (e1 + q + w1);
    assert p + e2 + q + i2 + r + d2 + s + f2 == p + (e2 + q + w2);
    CutPrefix(p, e1 + q + w1, e2 + q + w2);
    CutField(e1, q, w1, e2, w2);
    CutField(i1, r, x1, i2, x2);
    CutField(d1, s, f1, d2, f2);
  }

  /** Two keys are equal only if all four arguments are. */
  lemma TreeKeyInjective(e1: int, i1: int, d1: int, f1: bool, e2: int, i2: int, d2: int, f2: bool)
    requires TreeKey(e1, i1, d1, f1) == TreeKey(e2, i2, d2, f2)
    ensures e1 == e2 && i1 == i2 && d1 == d2 && f1 == f2
  {
    CutKey("department-tree:v", Decimal(e1), Decimal(e2), ":id=", Decimal(i1), Decimal(i2), ":depth=",
           Decimal(d1), Decimal(d2), ":employees=", Flag(f1), Flag(f2));
    DecimalInjective(e1, e2);
    DecimalInjective(i1, i2);
    DecimalInjective(d1, d2);
    assert Flag(true)[0] != Flag(false)[0];
  }

  lemma TreeKeyIsNotEpochKey(epoch: int, id: int, depth: int, withEmployees: bool)
    ensures TreeKey(epoch, id, depth, withEmployees) != EPOCH_KEY
  {
  }

  lemma SmallDecimals()
    ensures Decimal(12) == "12" && Decimal(5) == "5" && Decimal(2) == "2"
  {
    assert Digits(1) == "1" && Digit(2) == '2';
  }

  /** The key as it reads, for one set of arguments. */
  lemma TreeKeyText()
    ensures TreeKey(12, 5, 2, true) == "department-tree:v12:id=5:depth=2:employees=true"
  {
    SmallDecimals();
    assert "department-tree:v" + "12" == "department-tree:v12";
    assert "department-tree:v12" + ":id=" + "5" == "department-tree:v12:id=5";
    assert "department-tree:v12:id=5" + ":depth=" + "2" == "department-tree:v12:id=5:depth=2";
  }
}
