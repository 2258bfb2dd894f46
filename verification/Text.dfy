// Text primitives shared by the stylesheet and driver models: the XPath string functions,
// C substring search, decimal numerals, and byte-wise string order.
module Text {

  datatype Option<+T> = None | Some(value: T)

  function Lookup<V>(m: map<string, V>, k: string): Option<V> {
    if k in m then Some(m[k]) else None
  }

  /** The string value of a node or attribute, empty when there is none. */
  function Value(o: Option<string>): string {
    if o.Some? then o.value else ""
  }

  // ---- single characters ----

  /** Index of the first c in s, or |s|. */
  function IndexOf(s: string, c: char): (i: nat)
    ensures i <= |s|
    ensures c !in s[..i]
    ensures i < |s| ==> s[i] == c
  {
    if s == "" || s[0] == c then 0 else 1 + IndexOf(s[1..], c)
  }

  /** XPath substring-before with a one-character needle. */
  function Before(s: string, c: char): string {
    var i := IndexOf(s, c);
    if i == |s| then "" else s[..i]
  }

  /** XPath substring-after with a one-character needle. */
  function After(s: string, c: char): string {
    var i := IndexOf(s, c);
    if i == |s| then "" else s[i + 1..]
  }

  lemma {:induction false} BeforeAfter(a: string, c: char, b: string)
    requires c !in a
    ensures IndexOf(a + [c] + b, c) == |a|
    ensures Before(a + [c] + b, c) == a
    ensures After(a + [c] + b, c) == b
  {
    var s := a + [c] + b;
    if a != "" {
      assert s[1..] == a[1..] + [c] + b;
      BeforeAfter(a[1..], c, b);
    }
    assert s[..|a|] == a && s[|a| + 1..] == b;
  }

  // ---- lists ----

  lemma Assoc<T>(a: seq<T>, b: seq<T>, c: seq<T>)
    ensures a + (b + c) == (a + b) + c
  {
  }

  lemma NoneBeside<T>(a: seq<T>)
    ensures [] + a == a && a + [] == a
  {
  }

  // ---- splitting and joining ----

  /** All pieces between separators, empty ones included. */
  function Split(s: string, c: char): (r: seq<string>)
    ensures r != []
    decreases |s|
  {
    var i := IndexOf(s, c);
    if i == |s| then [s] else [s[..i]] + Split(s[i + 1..], c)
  }

  function Join(parts: seq<string>, c: char): string
    requires parts != []
  {
    if |parts| == 1 then parts[0] else parts[0] + [c] + Join(parts[1..], c)
  }

  lemma SplitFirst(a: string, c: char, b: string)
    requires c !in a
    ensures Split(a + [c] + b, c) == [a] + Split(b, c)
  {
    BeforeAfter(a, c, b);
    var s := a + [c] + b;
    assert s[..|a|] == a && s[|a| + 1..] == b;
  }

  lemma SplitLast(a: string, c: char)
    requires c !in a
    ensures Split(a, c) == [a]
  {
    var i := IndexOf(a, c);
    assert i == |a|;
  }

  lemma {:induction false} SplitJoin(parts: seq<string>, c: char)
    requires parts != []
    requires forall p | p in parts :: c !in p
    ensures Split(Join(parts, c), c) == parts
  {
    assert parts[0] in parts;
    if |parts| == 1 {
      SplitLast(parts[0], c);
    } else {
      assert forall p | p in parts[1..] :: p in parts;
      SplitFirst(parts[0], c, Join(parts[1..], c));
      SplitJoin(parts[1..], c);
      assert [parts[0]] + parts[1..] == parts;
    }
  }

  /** str:tokenize and str:split of EXSLT: the non-empty pieces. */
  function Tokens(s: string, c: char): seq<string> {
    NonEmpty(Split(s, c))
  }

  function NonEmpty(parts: seq<string>): seq<string> {
    if parts == [] then []
    else (if parts[0] == "" then [] else [parts[0]]) + NonEmpty(parts[1..])
  }

  lemma {:induction false} NonEmptyAll(parts: seq<string>)
    requires forall p | p in parts :: p != ""
    ensures NonEmpty(parts) == parts
  {
    if parts != [] {
      assert parts[0] in parts;
      assert forall p | p in parts[1..] :: p in parts;
      NonEmptyAll(parts[1..]);
    }
  }

  /** Splitting loses nothing: the pieces have no separator and join to the text. */
  lemma {:induction false} JoinSplit(s: string, c: char)
    ensures Join(Split(s, c), c) == s
    ensures forall p | p in Split(s, c) :: c !in p
    decreases |s|
  {
    var i := IndexOf(s, c);
    if i < |s| {
      JoinSplit(s[i + 1..], c);
      var rest := Split(s[i + 1..], c);
      assert Split(s, c) == [s[..i]] + rest && ([s[..i]] + rest)[1..] == rest;
      assert s == s[..i] + [c] + s[i + 1..];
    }
  }

  lemma JoinFirst(a: string, rest: seq<string>, c: char)
    ensures Join([a], c) == a
    ensures rest != [] ==> Join([a] + rest, c) == a + [c] + Join(rest, c)
  {
    assert ([a] + rest)[1..] == rest;
  }

  /** The tokens of a text are the non-empty pieces between its separators. */
  lemma TokensBetween(a: string, c: char, b: string)
    requires c !in a
    ensures Tokens(a, c) == if a == "" then [] else [a]
    ensures Tokens(a + [c] + b, c) == (if a == "" then [] else [a]) + Tokens(b, c)
  {
    SplitLast(a, c);
    SplitFirst(a, c, b);
    var first := if a == "" then [] else [a];
    assert [a][1..] == [] && ([a] + Split(b, c))[1..] == Split(b, c);
    NoneBeside(first);
    assert Tokens(a, c) == first + NonEmpty([]);
  }

  lemma TokensJoin(parts: seq<string>, c: char)
    requires parts != []
    requires forall p | p in parts :: c !in p && p != ""
    ensures Tokens(Join(parts, c), c) == parts
  {
    SplitJoin(parts, c);
    NonEmptyAll(parts);
  }

  // ---- substring search ----

  /** strstr: index of the first occurrence of p in s, or -1. */
  function Find(s: string, p: string): (i: int)
    ensures i == -1 || (0 <= i && i + |p| <= |s| && s[i..i + |p|] == p)
  {
    if p <= s then 0
    else if s == "" then -1
    else var i := Find(s[1..], p);
         if i < 0 then -1 else i + 1
  }

  predicate Contains(s: string, p: string) {
    Find(s, p) >= 0
  }

  /** Find gives the first occurrence, and -1 exactly when there is none. */
  lemma {:induction false} FindFirst(s: string, p: string)
    ensures Find(s, p) >= 0 ==> p <= s[Find(s, p)..] && forall j | 0 <= j < Find(s, p) :: !(p <= s[j..])
    ensures Find(s, p) < 0 ==> forall j | 0 <= j <= |s| :: !(p <= s[j..])
  {
    assert s[0..] == s;
    if !(p <= s) && s != "" {
      FindFirst(s[1..], p);
      forall j | 0 < j <= |s|
        ensures s[j..] == s[1..][j - 1..]
      {
      }
    }
  }

  /** A needle with a character foreign to the text does not occur in it. */
  lemma {:induction false} Foreign(s: string, p: string, c: char)
    requires c in p && c !in s
    ensures !Contains(s, p)
  {
    assert p <= s ==> forall x | x in p :: x in s;
    if s != "" {
      Foreign(s[1..], p, c);
    }
  }

  /** A needle without c is found either wholly before or wholly after a c. */
  lemma {:induction false} FindAcross(a: string, c: char, b: string, p: string)
    requires p != "" && c !in p
    ensures Find(a + [c] + b, p) ==
            if Contains(a, p) then Find(a, p)
            else if Contains(b, p) then |a| + 1 + Find(b, p)
            else -1
  {
    var s := a + [c] + b;
    assert |p| > |a| ==> p[|a|] != s[|a|];
    assert |p| <= |a| ==> s[..|p|] == a[..|p|];
    assert p <= s <==> p <= a;
    if p <= a {
    } else if a == "" {
      assert s[1..] == b;
    } else {
      assert s[1..] == a[1..] + [c] + b;
      FindAcross(a[1..], c, b, p);
    }
  }

  // ---- numerals ----

  predicate IsDigit(c: char) {
    '0' <= c <= '9'
  }

  predicate Digits(s: string) {
    s != "" && forall c | c in s :: IsDigit(c)
  }

  /** printf "%d" of a natural number. */
  function Decimal(n: nat): (s: string)
    ensures Digits(s)
  {
    var last := ["0123456789"[n % 10]];
    if n < 10 then last else Decimal(n / 10) + last
  }

  /** The value of a string of decimal digits. */
  function Number(s: string): nat
    requires forall c | c in s :: IsDigit(c)
  {
    if s == "" then 0
    else assert IsDigit(s[|s| - 1]); 10 * Number(s[..|s| - 1]) + (s[|s| - 1] as int - '0' as int)
  }

  lemma {:induction false} NumberDecimal(n: nat)
    ensures Number(Decimal(n)) == n
  {
    var s := Decimal(n);
    assert s[|s| - 1] == "0123456789"[n % 10];
    assert s[|s| - 1] as int - '0' as int == n % 10;
    if n < 10 {
      assert s[..|s| - 1] == "";
    } else {
      assert s[..|s| - 1] == Decimal(n / 10);
      NumberDecimal(n / 10);
    }
  }

  /** The numeral of n, then a digit, is the numeral of 10 n plus that digit. */
  lemma DecimalDigit(n: nat, d: nat, c: char)
    requires d < 10 && c as int == '0' as int + d
    ensures Decimal(d) == [c]
    ensures n > 0 ==> Decimal(10 * n + d) == Decimal(n) + [c]
  {
    assert "0123456789"[d] == c;
    assert (10 * n + d) / 10 == n && (10 * n + d) % 10 == d;
  }

  lemma NumberDigit(s: string, c: char)
    requires IsDigit(c) && forall x | x in s :: IsDigit(x)
    ensures Number("") == 0
    ensures Number(s + [c]) == 10 * Number(s) + (c as int - '0' as int)
  {
    var t := s + [c];
    assert t[..|t| - 1] == s && t[|t| - 1] == c;
  }

  // ---- order ----

  /** strcmp(a, b) <= 0. */
  predicate Leq(a: string, b: string) {
    a == "" || (b != "" && (a[0] < b[0] || (a[0] == b[0] && Leq(a[1..], b[1..]))))
  }

  lemma {:induction false} LeqTotal(a: string, b: string)
    ensures Leq(a, b) || Leq(b, a)
  {
    if a != "" && b != "" {
      LeqTotal(a[1..], b[1..]);
    }
  }

  lemma {:induction false} LeqAntisymmetric(a: string, b: string)
    requires Leq(a, b) && Leq(b, a)
    ensures a == b
  {
    if a != "" {
      LeqAntisymmetric(a[1..], b[1..]);
      assert a == [a[0]] + a[1..] && b == [b[0]] + b[1..];
    }
  }

  lemma {:induction false} LeqTransitive(a: string, b: string, c: string)
    requires Leq(a, b) && Leq(b, c)
    ensures Leq(a, c)
  {
    if a != "" && a[0] == b[0] && b[0] == c[0] {
      LeqTransitive(a[1..], b[1..], c[1..]);
    }
  }

  /** The order is by the first character that differs. */
  lemma {:induction false} LeqFirstDifference(common: string, x: char, a: string, y: char, b: string)
    requires x != y
    ensures Leq(common + ([x] + a), common + ([y] + b)) <==> x < y
  {
    var s, t := [x] + a, [y] + b;
    if common == "" {
      assert common + s == s && common + t == t;
    } else {
      LeqFirstDifference(common[1..], x, a, y, b);
      assert (common + s)[1..] == common[1..] + s && (common + t)[1..] == common[1..] + t;
    }
  }

  /** A text comes after its prefixes. */
  lemma {:induction false} LeqPrefix(common: string, a: string)
    ensures Leq(common, common + a)
    ensures a != "" ==> !Leq(common + a, common)
  {
    if common == "" {
      assert common + a == a;
    } else {
      LeqPrefix(common[1..], a);
      assert (common + a)[1..] == common[1..] + a;
    }
  }
}
