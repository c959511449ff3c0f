/**
 String operations the application borrows from JavaScript: the whitespace set
 shared by `String.prototype.trim` and the regular-expression class `\s`,
 `trim`, substring search, `replace` with a string pattern (first occurrence
 only), and the decimal text of an integer.
 */
module Text {

  import opened Options

  /** WhiteSpace and LineTerminator code points of ECMAScript (section 12.2 and
      12.3 of ECMA-262): the set `trim` strips and `\s` matches. */
  predicate IsSpace(c: char) {
    || c == ' ' || c == '\t' || c == '\n' || c == '\r'
    || c == '\U{000B}' || c == '\U{000C}' || c == '\U{00A0}' || c == '\U{1680}'
    || ('\U{2000}' <= c <= '\U{200A}')
    || c == '\U{2028}' || c == '\U{2029}' || c == '\U{202F}' || c == '\U{205F}'
    || c == '\U{3000}' || c == '\U{FEFF}'
  }

  predicate AllSpace(s: string) {
    forall i | 0 <= i < |s| :: IsSpace(s[i])
  }

  /** Number of whitespace characters at the front of `s`. */
  function LeadingSpaces(s: string): (n: nat)
    ensures n <= |s|
    ensures AllSpace(s[..n])
    ensures n < |s| ==> !IsSpace(s[n])
  {
    if |s| > 0 && IsSpace(s[0]) then
      var n := 1 + LeadingSpaces(s[1..]);
      assert s[..n] == [s[0]] + s[1..][..n - 1];
      n
    else 0
  }

  /** Number of whitespace characters at the back of `s`. */
  function TrailingSpaces(s: string): (n: nat)
    ensures n <= |s|
    ensures AllSpace(s[|s| - n..])
    ensures n < |s| ==> !IsSpace(s[|s| - n - 1])
  {
    if |s| > 0 && IsSpace(s[|s| - 1]) then
      var n := 1 + TrailingSpaces(s[..|s| - 1]);
      assert s[|s| - n..] == s[..|s| - 1][|s| - n..] + [s[|s| - 1]];
      n
    else 0
  }

  /** `String.prototype.trim`: the longest infix of `s` that starts and ends
      with a non-whitespace character, after only whitespace. */
  function Trim(s: string): (r: string)
    ensures LeadingSpaces(s) + |r| <= |s|
    ensures r == s[LeadingSpaces(s)..LeadingSpaces(s) + |r|]
    ensures AllSpace(s[LeadingSpaces(s) + |r|..])
    ensures |r| > 0 ==> !IsSpace(r[0]) && !IsSpace(r[|r| - 1])
  {
    var t := s[LeadingSpaces(s)..];
    t[..|t| - TrailingSpaces(t)]
  }

  /** A string whose ends are not whitespace is its own trim. */
  lemma TrimOfTrimmed(s: string)
    requires |s| > 0 ==> !IsSpace(s[0]) && !IsSpace(s[|s| - 1])
    ensures Trim(s) == s
  {
    if |s| > 0 {
      assert LeadingSpaces(s) == 0;
      assert TrailingSpaces(s) == 0;
    }
  }

  /** Trimming is idempotent. */
  lemma TrimIdempotent(s: string)
    ensures Trim(Trim(s)) == Trim(s)
  {
    TrimOfTrimmed(Trim(s));
  }

  /** Trimming removes whitespace only: every other character stays, as
      often as it occurs. */
  lemma TrimKeepsWords(s: string)
    ensures forall c | !IsSpace(c) :: multiset(Trim(s))[c] == multiset(s)[c]
  {
    var front, back := TrimSplit(s);
    forall c | !IsSpace(c) ensures multiset(front)[c] == 0 && multiset(back)[c] == 0 {
      assert forall i | 0 <= i < |front| :: front[i] != c;
      assert forall i | 0 <= i < |back| :: back[i] != c;
    }
  }

  /** `s.trim() === ''` holds exactly for whitespace-only strings. */
  lemma TrimEmptyIffAllSpace(s: string)
    ensures Trim(s) == [] <==> AllSpace(s)
  {
    var n := LeadingSpaces(s);
    if Trim(s) == [] {
      assert n == |s|;
      forall i | 0 <= i < |s| ensures IsSpace(s[i]) {
        assert s[i] == s[..n][i];
      }
    }
  }

  /** Whitespace in front of a non-whitespace character is exactly the
      leading run. */
  lemma {:induction false} LeadingSpacesOf(u: string, rest: string)
    requires AllSpace(u) && |rest| > 0 && !IsSpace(rest[0])
    ensures LeadingSpaces(u + rest) == |u|
    decreases |u|
  {
    if |u| > 0 {
      assert (u + rest)[1..] == u[1..] + rest;
      LeadingSpacesOf(u[1..], rest);
    }
  }

  /** Whitespace after a non-whitespace character is exactly the trailing
      run. */
  lemma {:induction false} TrailingSpacesOf(rest: string, v: string)
    requires AllSpace(v) && |rest| > 0 && !IsSpace(rest[|rest| - 1])
    ensures TrailingSpaces(rest + v) == |v|
    decreases |v|
  {
    if |v| > 0 {
      var s := rest + v;
      assert s[..|s| - 1] == rest + v[..|v| - 1];
      TrailingSpacesOf(rest, v[..|v| - 1]);
    }
  }

  /** A whitespace-only string is all leading whitespace. */
  lemma {:induction false} LeadingSpacesAll(s: string)
    requires AllSpace(s)
    ensures LeadingSpaces(s) == |s|
    decreases |s|
  {
    if |s| > 0 {
      LeadingSpacesAll(s[1..]);
    }
  }

  /** `trim` is determined by a split into whitespace, a part with no
      whitespace at either end, and whitespace. */
  lemma TrimUnique(u: string, r: string, v: string)
    requires AllSpace(u) && AllSpace(v)
    requires |r| > 0 ==> !IsSpace(r[0]) && !IsSpace(r[|r| - 1])
    ensures Trim(u + r + v) == r
  {
    var s := u + r + v;
    if |r| == 0 {
      assert s == u + v;
      LeadingSpacesAll(u + v);
    } else {
      assert s == u + (r + v);
      LeadingSpacesOf(u, r + v);
      assert s[|u|..] == r + v;
      TrailingSpacesOf(r, v);
      assert (r + v)[..|r|] == r;
    }
  }

  /** Whitespace added at the end does not change the trim. */
  lemma TrimDropsTrailing(l: string, w: string)
    requires AllSpace(w)
    ensures Trim(l + w) == Trim(l)
  {
    var front, back := TrimSplit(l);
    AppendRight(front, Trim(l), back, w);
    SpacesJoined(back, w);
    TrimUnique(front, Trim(l), back + w);
  }

  /** Whitespace added at the front does not change the trim. */
  lemma TrimDropsLeading(w: string, r: string)
    requires AllSpace(w)
    ensures Trim(w + r) == Trim(r)
  {
    var front, back := TrimSplit(r);
    AppendLeft(w, front, Trim(r), back);
    SpacesJoined(w, front);
    TrimUnique(w + front, Trim(r), back);
  }

  /** Any text is its leading whitespace, its trim and its trailing
      whitespace. */
  lemma TrimSplit(s: string) returns (front: string, back: string)
    ensures AllSpace(front) && AllSpace(back) && s == front + Trim(s) + back
  {
    var n := LeadingSpaces(s);
    front, back := s[..n], s[n + |Trim(s)|..];
    assert s == front + Trim(s) + back;
  }

  lemma SpacesJoined(a: string, b: string)
    requires AllSpace(a) && AllSpace(b)
    ensures AllSpace(a + b)
  {
    assert forall i | 0 <= i < |a + b| :: (a + b)[i] == if i < |a| then a[i] else b[i - |a|];
  }

  lemma AppendRight(a: string, b: string, c: string, d: string)
    ensures (a + b + c) + d == a + b + (c + d)
  {
  }

  lemma AppendLeft(w: string, a: string, b: string, c: string)
    ensures w + (a + b + c) == (w + a) + b + c
  {
  }

  /** Two texts joined by a space, the first not ending and the second not
      starting with whitespace, trim to their trims joined by that space. */
  lemma TrimJoin(l: string, r: string)
    requires |l| > 0 && !IsSpace(l[|l| - 1])
    requires |r| > 0 && !IsSpace(r[0])
    ensures Trim(l + " " + r) == Trim(l) + " " + Trim(r)
  {
    var front := TrimEndingText(l);
    var back := TrimStartingText(r);
    Regroup(front, Trim(l), " ", Trim(r), back);
    TrimUnique(front, Trim(l) + " " + Trim(r), back);
  }

  lemma Regroup(a: string, b: string, c: string, d: string, e: string)
    ensures (a + b) + c + (d + e) == a + (b + c + d) + e
  {
  }

  /** Text that ends in another character is its leading whitespace
      followed by its trim. */
  lemma TrimEndingText(l: string) returns (front: string)
    requires |l| > 0 && !IsSpace(l[|l| - 1])
    ensures AllSpace(front) && l == front + Trim(l)
    ensures |Trim(l)| > 0 && !IsSpace(Trim(l)[0]) && !IsSpace(Trim(l)[|Trim(l)| - 1])
  {
    var n := LeadingSpaces(l);
    var tl := Trim(l);
    assert l == l[..n] + tl + l[n + |tl|..];
    if n + |tl| < |l| {
      assert false;
    }
    front := l[..n];
  }

  /** Text that starts with another character is its trim followed by its
      trailing whitespace. */
  lemma TrimStartingText(r: string) returns (back: string)
    requires |r| > 0 && !IsSpace(r[0])
    ensures AllSpace(back) && r == Trim(r) + back
    ensures |Trim(r)| > 0 && !IsSpace(Trim(r)[0]) && !IsSpace(Trim(r)[|Trim(r)| - 1])
  {
    assert LeadingSpaces(r) == 0;
    var tr := Trim(r);
    back := r[|tr|..];
    assert r == tr + back;
  }

  /** `pat` occurs in `s` starting at index `i`. */
  predicate OccursAt(s: string, pat: string, i: int) {
    0 <= i && i + |pat| <= |s| && s[i..i + |pat|] == pat
  }

  /** `s.includes(pat)` */
  predicate Contains(s: string, pat: string) {
    exists i | 0 <= i <= |s| :: OccursAt(s, pat, i)
  }

  lemma ContainsInMiddle(before: string, pat: string, after: string)
    ensures Contains(before + pat + after, pat)
  {
    assert OccursAt(before + pat + after, pat, |before|);
  }

  /** `s.indexOf(pat, from)`: the first occurrence at or after `from`. */
  function IndexOfFrom(s: string, pat: string, from: nat): (r: Option<nat>)
    ensures r.Some? ==> from <= r.value && OccursAt(s, pat, r.value)
    ensures r.Some? ==> forall j | from <= j < r.value :: !OccursAt(s, pat, j)
    ensures r.None? ==> forall j | from <= j :: !OccursAt(s, pat, j)
    decreases |s| - from
  {
    if from + |pat| > |s| then None
    else if s[from..from + |pat|] == pat then Some(from)
    else IndexOfFrom(s, pat, from + 1)
  }

  /** `i` is where `pat` first occurs in `s`. */
  predicate FirstOccurrence(s: string, pat: string, i: int) {
    OccursAt(s, pat, i) && forall j | 0 <= j < i :: !OccursAt(s, pat, j)
  }

  /** There is at most one first occurrence. */
  lemma FirstOccurrenceUnique(s: string, pat: string, i: int, k: int)
    requires FirstOccurrence(s, pat, i) && FirstOccurrence(s, pat, k)
    ensures i == k
  {
  }

  /** The replacement text `replace` inserts for the replacement string `v`
      (the GetSubstitution operation of ECMA-262 for a pattern without
      capture groups): `$$` is a dollar sign, `$&` the matched text, `` $` ``
      the text before the match and `$'` the text after it; every other
      character, a lone `$` included, stands for itself. */
  function Substitution(v: string, matched: string, before: string, after: string): (r: string)
    ensures '$' !in v ==> r == v
    decreases |v|
  {
    if |v| == 0 then []
    else if v[0] == '$' && |v| >= 2 && v[1] in "$&`'" then
      var part := if v[1] == '$' then "$" else if v[1] == '&' then matched
        else if v[1] == '`' then before else after;
      part + Substitution(v[2..], matched, before, after)
    else
      assert '$' !in v ==> '$' !in v[1..] by {
        assert forall c | c in v[1..] :: c in v;
      }
      [v[0]] + Substitution(v[1..], matched, before, after)
  }

  /** `$$` and `$&`, each followed by plain text; `$` before any other
      character stays as written. */
  lemma SubstitutionPatterns(m: string, b: string, a: string)
    ensures Substitution("$$x", m, b, a) == "$x"
    ensures Substitution("$&x", m, b, a) == m + "x"
    ensures Substitution("$1", m, b, a) == "$1"
  {
    assert "$$x"[2..] == "x" && "$&x"[2..] == "x";
    assert "$1"[1..] == "1";
  }

  /** `` $` `` and `$'`, each followed by plain text, give the text before
      and after the match. */
  lemma SubstitutionContext(m: string, b: string, a: string)
    ensures Substitution("$`x", m, b, a) == b + "x"
    ensures Substitution("$'x", m, b, a) == a + "x"
  {
    assert "$`x"[2..] == "x" && "$'x"[2..] == "x";
  }

  /** `s` with the copy of `pat` at `i` replaced by the substitution for
      `v`. */
  function ReplacedAt(s: string, pat: string, v: string, i: nat): string
    requires i + |pat| <= |s|
  {
    s[..i] + Substitution(v, pat, s[..i], s[i + |pat|..]) + s[i + |pat|..]
  }

  /** `s.replace(pat, v)` with a string pattern: the first occurrence of
      `pat` (as `IndexOfFrom` finds it) is replaced by the substitution for
      `v`; without one, `s` is returned as it is. */
  function ReplaceFirst(s: string, pat: string, v: string): (r: string)
    ensures !Contains(s, pat) ==> r == s
    ensures forall i | FirstOccurrence(s, pat, i) :: r == ReplacedAt(s, pat, v, i)
    ensures Contains(s, pat) && '$' !in v ==> |r| == |s| - |pat| + |v| && Contains(r, v)
  {
    match IndexOfFrom(s, pat, 0)
    case None => s
    case Some(k) =>
      ReplaceAt(s, pat, v, k);
      ReplacedAt(s, pat, v, k)
  }

  /** Replacing the first occurrence at `k`: no other index is the first
      occurrence, and a replacement string without `$` is found in the
      result where the match was. */
  lemma ReplaceAt(s: string, pat: string, v: string, k: nat)
    requires FirstOccurrence(s, pat, k)
    ensures Contains(s, pat)
    ensures forall i | FirstOccurrence(s, pat, i) :: i == k
    ensures '$' !in v ==> |ReplacedAt(s, pat, v, k)| == |s| - |pat| + |v| && Contains(ReplacedAt(s, pat, v, k), v)
  {
    forall i | FirstOccurrence(s, pat, i) ensures i == k {
      FirstOccurrenceUnique(s, pat, i, k);
    }
    var r := ReplacedAt(s, pat, v, k);
    assert '$' !in v ==> OccursAt(r, v, k) by {
      assert '$' !in v ==> r[k..k + |v|] == v;
    }
  }

  /** When the text before the first copy of `pat` cannot start one (it
      lacks `pat`'s first character), `replace` substitutes that copy. */
  lemma ReplaceAfterPrefix(before: string, pat: string, after: string, v: string)
    requires |pat| > 0 && pat[0] !in before
    ensures ReplaceFirst(before + pat + after, pat, v) == before + Substitution(v, pat, before, after) + after
  {
    var s := before + pat + after;
    assert ReplacedAt(s, pat, v, |before|) == before + Substitution(v, pat, before, after) + after by {
      assert s[..|before|] == before;
      assert s[|before| + |pat|..] == after;
    }
    assert OccursAt(s, pat, |before|);
    forall j | 0 <= j < |before| ensures !OccursAt(s, pat, j) {
      assert s[j] == before[j] != pat[0];
    }
    assert FirstOccurrence(s, pat, |before|);
  }

  /** The decimal digit character for `d`. */
  function DigitChar(d: nat): (c: char)
    requires d < 10
    ensures '0' <= c <= '9'
  {
    (('0' as int) + d) as char
  }

  predicate IsDigit(c: char) {
    '0' <= c <= '9'
  }

  predicate AllDigits(s: string) {
    forall i | 0 <= i < |s| :: IsDigit(s[i])
  }

  /** Decimal text of a natural number, as `String(n)` prints it. */
  function NatToDecimal(n: nat): (r: string)
    ensures |r| > 0
    ensures AllDigits(r)
    ensures r[0] == '0' ==> n == 0 && |r| == 1
  {
    if n < 10 then [DigitChar(n)] else NatToDecimal(n / 10) + [DigitChar(n % 10)]
  }

  /** The value of a string of decimal digits. */
  function DecimalValue(s: string): nat
    requires AllDigits(s)
  {
    if |s| == 0 then 0
    else
      var last := s[|s| - 1];
      assert IsDigit(last);
      10 * DecimalValue(s[..|s| - 1]) + (last as int - '0' as int)
  }

  /** Reading back the decimal text gives the number: the text names the value. */
  lemma {:induction false} DecimalRoundTrip(n: nat)
    ensures DecimalValue(NatToDecimal(n)) == n
  {
    if n >= 10 {
      var s := NatToDecimal(n);
      assert s[..|s| - 1] == NatToDecimal(n / 10);
      DecimalRoundTrip(n / 10);
    }
  }

  /** Decimal text of an integer, as `String(x)` prints it: a leading minus
      sign when negative, and no leading zero. */
  function IntToDecimal(x: int): (r: string)
    ensures |r| > 0
    ensures x < 0 <==> r[0] == '-'
    ensures x >= 0 ==> AllDigits(r) && DecimalValue(r) == x
    ensures x < 0 ==> AllDigits(r[1..]) && DecimalValue(r[1..]) == -x
    ensures x >= 0 && r[0] == '0' ==> r == "0"
    ensures x < 0 ==> |r| > 1 && r[1] != '0'
    ensures forall c | c in r :: c == '-' || IsDigit(c)
  {
    DecimalRoundTrip(if x < 0 then -x else x);
    if x < 0 then "-" + NatToDecimal(-x) else NatToDecimal(x)
  }
}
