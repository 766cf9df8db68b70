/** Strings, as the editor of configuration files sees them: searching, blanks and line starts. */
module Text {

  // ----- Sequences: stated once, because the verifier finds them slowly inside larger proofs -----

  lemma Assoc(a: string, b: string, c: string)
    ensures (a + b) + c == a + (b + c)
  {
  }

  lemma Cut(a: string, b: string)
    ensures (a + b)[..|a|] == a && (a + b)[|a|..] == b
  {
  }

  lemma CutTwo(a: string, b: string, c: string)
    ensures var s := a + (b + c); s[|a| + |b|..] == c && s[..|a| + |b|] == a + b
  {
    Assoc(a, b, c);
    Cut(a + b, c);
  }

  lemma CutThree(a: string, b: string, c: string, d: string)
    ensures var s := a + (b + (c + d)); s[|a| + |b| + |c|..] == d && s[..|a| + |b| + |c|] == a + (b + c)
  {
    Assoc(b, c, d);
    CutTwo(a, b + c, d);
  }

  lemma CutAt(a: string, b: string, m: nat)
    requires |a| <= m <= |a| + |b|
    ensures (a + b)[..m] == a + b[..m - |a|] && (a + b)[m..] == b[m - |a|..]
  {
  }

  lemma Drops(s: string, a: nat, b: nat)
    requires a + b <= |s|
    ensures s[a..][b..] == s[a + b..]
  {
  }

  // ----- Characters -----

  /** The four characters JSON treats as white space. */
  predicate Ws(c: char) { c == ' ' || c == '\t' || c == '\r' || c == '\n' }

  const BOM: char := '\U{FEFF}'

  /** What Python's `str.strip()` removes. The byte order mark is not among them. */
  predicate PySpace(c: char) {
    var n := c as int;
    || 9 <= n <= 13 || 28 <= n <= 32 || n == 0x85 || n == 0xA0 || n == 0x1680
    || 0x2000 <= n <= 0x200A || n == 0x2028 || n == 0x2029 || n == 0x202F || n == 0x205F || n == 0x3000
  }

  predicate AllWs(s: string) { forall c <- s :: Ws(c) }

  /** `not s.strip()` */
  predicate Blank(s: string) { forall c <- s :: PySpace(c) }

  /** Index of the first `c`, or the length when there is none. */
  function Find(s: string, c: char): (n: nat)
    ensures n <= |s| && (n < |s| ==> s[n] == c) && (forall j :: 0 <= j < n ==> s[j] != c)
  {
    if s == [] || s[0] == c then 0
    else
      var n := 1 + Find(s[1..], c);
      assert forall j :: 0 < j < n ==> s[j] == s[1..][j - 1];
      n
  }

  lemma FindUnique(s: string, c: char, n: nat)
    requires n <= |s| && (n < |s| ==> s[n] == c) && (forall j :: 0 <= j < n ==> s[j] != c)
    ensures Find(s, c) == n
  {
  }

  /** Just past the last newline before `k`: `text.rfind("\n", 0, k) + 1`. */
  function LineStart(t: string, k: nat): (n: nat)
    requires k <= |t|
    ensures n <= k && (n > 0 ==> t[n - 1] == '\n') && (forall j :: n <= j < k ==> t[j] != '\n')
  {
    if k == 0 || t[k - 1] == '\n' then k else LineStart(t, k - 1)
  }

  lemma LineStartUnique(t: string, k: nat, n: nat)
    requires n <= k <= |t| && (n > 0 ==> t[n - 1] == '\n') && (forall j :: n <= j < k ==> t[j] != '\n')
    ensures LineStart(t, k) == n
  {
  }

  /** Drop white space to the left of `j`, but stay at or after `lo`. */
  function TrimBack(t: string, lo: nat, j: nat): (n: nat)
    requires j <= |t|
    ensures n <= j && (lo <= j ==> lo <= n) && (forall i :: n <= i < j ==> Ws(t[i])) && (n > lo ==> !Ws(t[n - 1]))
  {
    if j > lo && Ws(t[j - 1]) then TrimBack(t, lo, j - 1) else j
  }

  lemma TrimBackUnique(t: string, lo: nat, j: nat, n: nat)
    requires lo <= n <= j <= |t| && (forall i :: n <= i < j ==> Ws(t[i])) && (n > lo ==> !Ws(t[n - 1]))
    ensures TrimBack(t, lo, j) == n
  {
  }

  /** `s.rstrip(" \t\r\n")` */
  function RTrim(s: string): (r: string)
    ensures r <= s && AllWs(s[|r|..]) && (r != [] ==> !Ws(r[|r| - 1])) && |r| == TrimBack(s, 0, |s|)
  {
    s[..TrimBack(s, 0, |s|)]
  }

  /** Length of the blanks and tabs `s` starts with. */
  function Blanks(s: string): (n: nat)
    ensures n <= |s| && (forall j :: 0 <= j < n ==> s[j] == ' ' || s[j] == '\t')
    ensures n < |s| ==> s[n] != ' ' && s[n] != '\t'
  {
    if s != [] && (s[0] == ' ' || s[0] == '\t') then
      assert forall j :: 0 < j <= Blanks(s[1..]) && j < |s| ==> s[j] == s[1..][j - 1];
      1 + Blanks(s[1..])
    else 0
  }

  lemma BlanksUnique(s: string, n: nat)
    requires n <= |s| && (forall j :: 0 <= j < n ==> s[j] == ' ' || s[j] == '\t')
    requires n < |s| ==> s[n] != ' ' && s[n] != '\t'
    ensures Blanks(s) == n
  {
  }

  /** `s.replace("\n", x)` */
  function ReplaceNewlines(s: string, x: string): string {
    if s == [] then []
    else (if s[0] == '\n' then x else [s[0]]) + ReplaceNewlines(s[1..], x)
  }

  lemma {:induction false} ReplaceConcat(a: string, b: string, x: string)
    ensures ReplaceNewlines(a + b, x) == ReplaceNewlines(a, x) + ReplaceNewlines(b, x)
  {
    if a == [] {
      assert a + b == b;
    } else {
      assert (a + b)[1..] == a[1..] + b;
      ReplaceConcat(a[1..], b, x);
    }
  }

  lemma {:induction false} ReplaceNothing(s: string, x: string)
    requires '\n' !in s
    ensures ReplaceNewlines(s, x) == s
  {
    if s != [] {
      ReplaceNothing(s[1..], x);
    }
  }

  predicate CrLfAt(s: string, j: nat) { j + 1 < |s| && s[j] == '\r' && s[j + 1] == '\n' }

  predicate HasCrLf(s: string) { exists j :: 0 <= j < |s| && CrLfAt(s, j) }
}
