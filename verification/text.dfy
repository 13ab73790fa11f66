/** The handful of Python `str` operations the file-name codec relies on:
    `replace(p, "")`, `endswith`, `split(c, 1)`, `split()` and `str(int)`. */
module Text {

  import opened Wrappers

  // ---------------------------------------------------------------------------
  // Prefixes, suffixes and occurrences
  // ---------------------------------------------------------------------------

  predicate StartsWith(s: string, p: string) {
    |p| <= |s| && s[..|p|] == p
  }

  predicate EndsWith(s: string, p: string) {
    |p| <= |s| && s[|s| - |p|..] == p
  }

  /** `p` sits in `s` at position `i`. */
  predicate OccursAt(p: string, s: string, i: int) {
    0 <= i && i + |p| <= |s| && s[i..i + |p|] == p
  }

  /** Python's `p in s` for a non-empty `p`. */
  predicate Occurs(p: string, s: string) {
    exists i | 0 <= i <= |s| - |p| :: OccursAt(p, s, i)
  }

  /** No proper suffix of `p` is also a prefix of `p`, so two occurrences of
      `p` can never overlap. */
  predicate BorderFree(p: string) {
    forall k | 0 < k < |p| :: p[k..] != p[..|p| - k]
  }

  /** No occurrence of `p` in `a + b` starts inside `a` and ends inside `b`. */
  predicate NoStraddle(a: string, b: string, p: string) {
    forall i | 0 <= i < |a| < i + |p| :: !OccursAt(p, a + b, i)
  }

  /** A suffix of a suffix is a suffix. */
  lemma EndsWithTrans(s: string, t: string, u: string)
    requires EndsWith(s, t) && EndsWith(t, u)
    ensures EndsWith(s, u)
  {
    assert s[|s| - |u|..] == s[|s| - |t|..][|t| - |u|..];
  }

  lemma OccursAtWitness(p: string, s: string, i: int)
    requires OccursAt(p, s, i)
    ensures Occurs(p, s)
  {
  }

  /** A pattern whose first character does not appear in `s` cannot occur in `s`. */
  lemma AbsentHeadNotOccurs(p: string, s: string)
    requires p != [] && p[0] !in s
    ensures !Occurs(p, s)
  {
    forall i | 0 <= i <= |s| - |p|
      ensures !OccursAt(p, s, i)
    {
      assert s[i..i + |p|][0] == s[i];
    }
  }

  /** A pattern whose first character appears nowhere else in it has no border. */
  lemma UniqueHeadBorderFree(p: string)
    requires p != [] && p[0] !in p[1..]
    ensures BorderFree(p)
  {
    forall k | 0 < k < |p|
      ensures p[k..] != p[..|p| - k]
    {
      assert p[k..][0] == p[1..][k - 1];
    }
  }

  /** A character absent from `p` on either side of the seam stops any
      occurrence of `p` from straddling it. */
  lemma SeparatorNoStraddle(a: string, b: string, p: string)
    requires (a != [] && a[|a| - 1] !in p) || (b != [] && b[0] !in p)
    ensures NoStraddle(a, b, p)
  {
    forall i | 0 <= i < |a| < i + |p|
      ensures !OccursAt(p, a + b, i)
    {
      if i + |p| <= |a + b| {
        var w := (a + b)[i..i + |p|];
        if a != [] && a[|a| - 1] !in p {
          assert w[|a| - 1 - i] == a[|a| - 1];
        } else {
          assert w[|a| - i] == b[0];
        }
      }
    }
  }

  /** A border-free pattern standing at the start of `b` cannot be overlapped by
      an occurrence that begins inside `a`. */
  lemma LeadingPatternNoStraddle(a: string, b: string, p: string)
    requires BorderFree(p) && StartsWith(b, p)
    ensures NoStraddle(a, b, p)
  {
    forall i | 0 <= i < |a| < i + |p|
      ensures !OccursAt(p, a + b, i)
    {
      if i + |p| <= |a + b| {
        var k := |a| - i;
        var w := (a + b)[i..i + |p|];
        assert p[k..] != p[..|p| - k];
        var m :| 0 <= m < |p| - k && p[k..][m] != p[..|p| - k][m];
        assert w[k + m] == b[m] == p[m];
        assert w[k + m] != p[k + m];
      }
    }
  }

  // ---------------------------------------------------------------------------
  // str.replace(p, "")
  // ---------------------------------------------------------------------------

  /** Python's `s.replace(p, "")`: scans left to right and deletes each
      non-overlapping occurrence of `p`. */
  function RemoveAll(s: string, p: string): (r: string)
    requires p != []
    ensures |r| <= |s|
    decreases |s|
  {
    if s == [] then []
    else if StartsWith(s, p) then
      assert s == s[..|p|] + s[|p|..];
      RemoveAll(s[|p|..], p)
    else
      assert s == [s[0]] + s[1..];
      [s[0]] + RemoveAll(s[1..], p)
  }

  /** Deleting characters never introduces one. */
  lemma {:induction false} RemoveAllKeepsAbsent(s: string, p: string, c: char)
    requires p != [] && c !in s
    ensures c !in RemoveAll(s, p)
    decreases |s|
  {
    if s != [] {
      if StartsWith(s, p) {
        RemoveAllKeepsAbsent(s[|p|..], p, c);
      } else {
        RemoveAllKeepsAbsent(s[1..], p, c);
      }
    }
  }

  /** Removing a one-character pattern leaves no copy of that character. */
  lemma {:induction false} RemoveCharLeavesNone(s: string, c: char)
    ensures c !in RemoveAll(s, [c])
    decreases |s|
  {
    if s != [] {
      if StartsWith(s, [c]) {
        RemoveCharLeavesNone(s[1..], c);
      } else {
        assert s[..1] == [s[0]];
        RemoveCharLeavesNone(s[1..], c);
      }
    }
  }

  /** The result equals the input exactly when the pattern does not occur.
      That an occurrence anywhere is deleted is `RemoveAllAtOccurrence`. */
  lemma {:induction false} RemoveAllUnchangedIff(s: string, p: string)
    requires p != []
    ensures RemoveAll(s, p) == s <==> !Occurs(p, s)
    decreases |s|
  {
    if s == [] {
    } else if StartsWith(s, p) {
      assert OccursAt(p, s, 0);
      assert |RemoveAll(s, p)| < |s|;
    } else {
      RemoveAllUnchangedIff(s[1..], p);
      OccursTail(p, s);
      var t := RemoveAll(s[1..], p);
      assert RemoveAll(s, p) == [s[0]] + t;
      assert ([s[0]] + t)[1..] == t;
      assert s == [s[0]] + s[1..];
    }
  }

  /** When `p` does not start `s`, it occurs in `s` exactly when it occurs
      after the first character. */
  lemma OccursTail(p: string, s: string)
    requires p != [] && s != [] && !StartsWith(s, p)
    ensures Occurs(p, s) <==> Occurs(p, s[1..])
  {
    if Occurs(p, s) {
      var i :| 0 <= i <= |s| - |p| && OccursAt(p, s, i);
      assert i != 0;
      assert s[1..][i - 1..i - 1 + |p|] == s[i..i + |p|];
      OccursAtWitness(p, s[1..], i - 1);
    }
    if Occurs(p, s[1..]) {
      var i :| 0 <= i <= |s[1..]| - |p| && OccursAt(p, s[1..], i);
      assert s[1..][i..i + |p|] == s[i + 1..i + 1 + |p|];
      OccursAtWitness(p, s, i + 1);
    }
  }

  lemma RemoveAllAbsent(s: string, p: string)
    requires p != [] && !Occurs(p, s)
    ensures RemoveAll(s, p) == s
  {
    RemoveAllUnchangedIff(s, p);
  }

  /** Removing the pattern from itself leaves nothing. */
  lemma RemoveAllSelf(p: string)
    requires p != []
    ensures RemoveAll(p, p) == []
  {
    assert StartsWith(p, p);
    assert p[|p|..] == [];
  }

  /** The no-straddle condition survives dropping a prefix of `a`. */
  lemma NoStraddleDrop(a: string, b: string, p: string, k: nat)
    requires k <= |a| && NoStraddle(a, b, p)
    ensures NoStraddle(a[k..], b, p)
  {
    forall i | 0 <= i < |a[k..]| < i + |p|
      ensures !OccursAt(p, a[k..] + b, i)
    {
      assert a[k..] + b == (a + b)[k..];
      if OccursAt(p, a[k..] + b, i) {
        assert (a[k..] + b)[i..i + |p|] == (a + b)[k + i..k + i + |p|];
        assert OccursAt(p, a + b, k + i);
      }
    }
  }

  /** Removal distributes over a concatenation whose seam no occurrence crosses. */
  lemma {:induction false} RemoveAllConcat(a: string, b: string, p: string)
    requires p != [] && NoStraddle(a, b, p)
    ensures RemoveAll(a + b, p) == RemoveAll(a, p) + RemoveAll(b, p)
    decreases |a|
  {
    if a == [] {
      assert a + b == b;
    } else {
      var s := a + b;
      if StartsWith(s, p) {
        assert OccursAt(p, a + b, 0);
        assert |p| <= |a|;
        assert a[..|p|] == s[..|p|];
        assert StartsWith(a, p);
        assert s[|p|..] == a[|p|..] + b;
        NoStraddleDrop(a, b, p, |p|);
        RemoveAllConcat(a[|p|..], b, p);
        assert RemoveAll(s, p) == RemoveAll(a[|p|..] + b, p);
        assert RemoveAll(a, p) == RemoveAll(a[|p|..], p);
      } else {
        assert |p| <= |a| ==> s[..|p|] == a[..|p|];
        assert !StartsWith(a, p);
        assert s[1..] == a[1..] + b;
        NoStraddleDrop(a, b, p, 1);
        RemoveAllConcat(a[1..], b, p);
        assert RemoveAll(s, p) == [a[0]] + RemoveAll(a[1..] + b, p);
        assert RemoveAll(a, p) == [a[0]] + RemoveAll(a[1..], p);
      }
    }
  }

  /** Every occurrence goes, wherever it sits: an occurrence of a border-free
      pattern between `a` and `b` is deleted, and removal carries on in `b`
      as if `a + p` had never been there. */
  lemma RemoveAllAtOccurrence(a: string, b: string, p: string)
    requires p != [] && BorderFree(p)
    ensures RemoveAll(a + p + b, p) == RemoveAll(a, p) + RemoveAll(b, p)
  {
    assert StartsWith(p + b, p);
    LeadingPatternNoStraddle(a, p + b, p);
    RemoveAllConcat(a, p + b, p);
    assert (p + b)[|p|..] == b;
    assert a + p + b == a + (p + b);
  }

  /** Removal leaves alone a piece the pattern cannot reach into from either side. */
  lemma RemoveAllSeparated(a: string, b: string, p: string)
    requires p != [] && !Occurs(p, a) && !Occurs(p, b) && NoStraddle(a, b, p)
    ensures RemoveAll(a + b, p) == a + b
  {
    RemoveAllConcat(a, b, p);
    RemoveAllAbsent(a, p);
    RemoveAllAbsent(b, p);
  }

  /** A pattern of one character never straddles a seam. */
  lemma SingleCharNoStraddle(a: string, b: string, c: char)
    ensures NoStraddle(a, b, [c])
  {
  }

  // ---------------------------------------------------------------------------
  // str.split(c, 1)
  // ---------------------------------------------------------------------------

  /** Index of the first `c` in `s`. */
  function IndexOf(s: string, c: char): (i: nat)
    requires c in s
    ensures i < |s| && s[i] == c && c !in s[..i]
  {
    if s[0] == c then 0
    else
      assert s == [s[0]] + s[1..];
      var j := IndexOf(s[1..], c);
      assert s[..j + 1] == [s[0]] + s[1..][..j];
      j + 1
  }

  /** Python's `s.split(c, 1)` unpacked into two names: `None` when the split
      yields a single piece (there is no `c`), otherwise the text before the
      first `c` and everything after it. */
  function SplitOnce(s: string, c: char): (r: Option<(string, string)>)
    ensures r.None? <==> c !in s
    ensures r.Some? ==> r.value.0 + [c] + r.value.1 == s && c !in r.value.0
  {
    if c !in s then None
    else
      var i := IndexOf(s, c);
      assert s == s[..i] + [c] + s[i + 1..];
      Some((s[..i], s[i + 1..]))
  }

  /** The split is determined by where the first `c` is. */
  lemma SplitOnceAt(a: string, b: string, c: char)
    requires c !in a
    ensures SplitOnce(a + [c] + b, c) == Some((a, b))
  {
    var s := a + [c] + b;
    assert s[|a|] == c;
    var i := IndexOf(s, c);
    assert forall j | 0 <= j < |a| :: s[j] == a[j];
    assert forall j | 0 <= j < i :: s[j] != c by {
      forall j | 0 <= j < i
        ensures s[j] != c
      {
        assert s[..i][j] == s[j];
      }
    }
    assert s[..i] == a;
    assert s[i + 1..] == b;
  }

  // ---------------------------------------------------------------------------
  // str.split() with no separator
  // ---------------------------------------------------------------------------

  /** Python's `str.isspace` for a single character: the whitespace `int`
      skips, and the ASCII separators U+001C to U+001F. */
  predicate IsSpace(c: char) {
    IsIntSpace(c) || '\U{001C}' <= c <= '\U{001F}'
  }

  /** The whitespace `int(s)` skips around its digits. Among the ASCII
      characters CPython's integer parser skips only `\t\n\v\f\r` and the
      space, so the separators U+001C to U+001F make `int` fail; beyond ASCII
      it skips every `str.isspace` character. */
  predicate IsIntSpace(c: char) {
    || c in "\t\n\U{000B}\U{000C}\r "
    || c in "\U{0085}\U{00A0}\U{1680}\U{2028}\U{2029}\U{202F}\U{205F}\U{3000}"
    || '\U{2000}' <= c <= '\U{200A}'
  }

  predicate Spaceless(w: string) {
    forall k | 0 <= k < |w| :: !IsSpace(w[k])
  }

  /** Length of the run of non-space characters that starts `s`. */
  function WordLength(s: string): (n: nat)
    ensures n <= |s| && Spaceless(s[..n]) && (n == |s| || IsSpace(s[n]))
  {
    if s == [] || IsSpace(s[0]) then 0
    else
      var m := WordLength(s[1..]);
      assert s[..m + 1] == [s[0]] + s[1..][..m];
      m + 1
  }

  /** Python's `s.split()`: the maximal runs of non-space characters, in order. */
  function Words(s: string): (ws: seq<string>)
    ensures forall k | 0 <= k < |ws| :: ws[k] != [] && Spaceless(ws[k])
    decreases |s|
  {
    if s == [] then []
    else if IsSpace(s[0]) then Words(s[1..])
    else
      var n := WordLength(s);
      [s[..n]] + Words(s[n..])
  }

  /** Python's `" ".join(ws)`. */
  function Join(ws: seq<string>): string {
    if |ws| == 0 then []
    else if |ws| == 1 then ws[0]
    else ws[0] + " " + Join(ws[1..])
  }

  /** A spaceless word followed by a space (or by nothing) is split off whole. */
  lemma WordsLeadingWord(w: string, rest: string)
    requires w != [] && Spaceless(w) && (rest == [] || IsSpace(rest[0]))
    ensures Words(w + rest) == [w] + Words(rest)
  {
    var s := w + rest;
    var n := WordLength(s);
    assert forall j | 0 <= j < |w| :: s[j] == w[j];
    assert forall j | 0 <= j < n :: !IsSpace(s[j]) by {
      forall j | 0 <= j < n
        ensures !IsSpace(s[j])
      {
        assert s[..n][j] == s[j];
      }
    }
    assert rest != [] ==> s[|w|] == rest[0];
    assert s[..n] == w;
    assert s[n..] == rest;
  }

  /** Splitting words joined with single spaces gives the words back. */
  lemma {:induction false} WordsJoinRoundTrip(ws: seq<string>)
    requires forall k | 0 <= k < |ws| :: ws[k] != [] && Spaceless(ws[k])
    ensures Words(Join(ws)) == ws
    decreases |ws|
  {
    if |ws| == 0 {
    } else if |ws| == 1 {
      assert ws[0] + [] == ws[0];
      WordsLeadingWord(ws[0], []);
    } else {
      var rest := " " + Join(ws[1..]);
      assert Join(ws) == ws[0] + rest;
      WordsLeadingWord(ws[0], rest);
      assert rest[1..] == Join(ws[1..]);
      WordsJoinRoundTrip(ws[1..]);
      assert ws == [ws[0]] + ws[1..];
    }
  }

  // ---------------------------------------------------------------------------
  // str(int) and int(str)
  // ---------------------------------------------------------------------------

  predicate IsDigit(c: char) {
    '0' <= c <= '9'
  }

  function DigitValue(c: char): nat {
    if IsDigit(c) then (c - '0') as nat else 0
  }

  /** The ASCII digit for `d`. */
  function DigitChar(d: nat): (c: char)
    requires d < 10
    ensures IsDigit(c) && DigitValue(c) == d
  {
    ('0' as int + d) as char
  }

  /** Decimal rendering of a natural number, most significant digit first. */
  function NatToString(n: nat): (s: string)
    ensures s != [] && forall k | 0 <= k < |s| :: IsDigit(s[k])
  {
    if n < 10 then [DigitChar(n)]
    else NatToString(n / 10) + [DigitChar(n % 10)]
  }

  /** Python's `str(n)` for an `int`: digits, after a `-` for a negative `n`. */
  function IntToString(n: int): (s: string)
    ensures s != [] && IsDigit(s[|s| - 1])
    ensures forall k | 0 <= k < |s| :: IsDigit(s[k]) || (k == 0 && s[k] == '-')
    ensures s[0] == '-' <==> n < 0
  {
    if n < 0 then "-" + NatToString(-n) else NatToString(n)
  }

  /** Length of the run of `int` whitespace that starts `s`. */
  function LeadingIntSpaces(s: string): (n: nat)
    ensures n <= |s| && (n == |s| || !IsIntSpace(s[n]))
    ensures forall k | 0 <= k < n :: IsIntSpace(s[k])
  {
    if s == [] || !IsIntSpace(s[0]) then 0 else 1 + LeadingIntSpaces(s[1..])
  }

  /** Length of the run of `int` whitespace that ends `s`. */
  function TrailingIntSpaces(s: string): (n: nat)
    ensures n <= |s| && (n == |s| || !IsIntSpace(s[|s| - n - 1]))
    ensures forall k | |s| - n <= k < |s| :: IsIntSpace(s[k])
  {
    if s == [] || !IsIntSpace(s[|s| - 1]) then 0 else 1 + TrailingIntSpaces(s[..|s| - 1])
  }

  /** `s` without the leading and trailing whitespace `int(s)` skips. */
  function IntStrip(s: string): (t: string)
    ensures t == [] || (!IsIntSpace(t[0]) && !IsIntSpace(t[|t| - 1]))
    ensures |t| <= |s|
    ensures LeadingIntSpaces(s) + |t| <= |s| && t == s[LeadingIntSpaces(s)..LeadingIntSpaces(s) + |t|]
  {
    var lead := LeadingIntSpaces(s);
    var rest := s[lead..];
    var t := rest[..|rest| - TrailingIntSpaces(rest)];
    assert t == s[lead..lead + |t|];
    assert t != [] ==> t[0] == rest[0] && t[|t| - 1] == rest[|t| - 1];
    t
  }

  /** Text that neither starts nor ends with such whitespace is its own strip. */
  lemma IntStripUnspaced(s: string)
    requires s != [] && !IsIntSpace(s[0]) && !IsIntSpace(s[|s| - 1])
    ensures IntStrip(s) == s
  {
  }

  /** An optional sign, then ASCII digits with single underscores allowed
      between them. */
  predicate IsSignedDigits(t: string) {
    var body := if t != [] && (t[0] == '+' || t[0] == '-') then t[1..] else t;
    && body != [] && IsDigit(body[0])
    && forall k | 0 <= k < |body| ::
         IsDigit(body[k]) || (body[k] == '_' && k + 1 < |body| && IsDigit(body[k + 1]))
  }

  /** The strings Python's `int(s)` accepts, for ASCII digits: surrounding
      `int` whitespace, then signed digits. Text without a digit, such as the
      empty or blank string, is rejected. */
  predicate IsIntLiteral(s: string): (ok: bool)
    ensures ok ==> exists k | 0 <= k < |s| :: IsDigit(s[k])
  {
    var t := IntStrip(s);
    var j := if t != [] && (t[0] == '+' || t[0] == '-') then 1 else 0;
    assert IsSignedDigits(t) ==> IsDigit(s[LeadingIntSpaces(s) + j]);
    IsSignedDigits(t)
  }

  lemma DigitNotSpace(c: char)
    requires IsDigit(c)
    ensures !IsIntSpace(c)
  {
  }

  /** A file separator before the digits is not skipped: `int` rejects it. */
  lemma SeparatorBeforeDigitsRejected(sep: char, d: string)
    requires '\U{001C}' <= sep <= '\U{001F}'
    requires d != [] && forall k | 0 <= k < |d| :: IsDigit(d[k])
    ensures IsSpace(sep) && !IsIntLiteral([sep] + d)
  {
    var s := [sep] + d;
    assert s[|s| - 1] == d[|d| - 1];
    DigitNotSpace(d[|d| - 1]);
    IntStripUnspaced(s);
  }

  /** Digits, with or without a leading minus sign, are signed digits. */
  lemma DigitsAreSigned(d: string)
    requires d != [] && forall k | 0 <= k < |d| :: IsDigit(d[k])
    ensures IsSignedDigits(d) && IsSignedDigits("-" + d)
  {
    assert ("-" + d)[1..] == d;
  }

  /** `int(str(n))` never raises. */
  lemma IntToStringIsIntLiteral(n: int)
    ensures IsIntLiteral(IntToString(n))
  {
    var s := IntToString(n);
    var digits := NatToString(if n < 0 then -n else n);
    DigitsAreSigned(digits);
    assert s == digits || s == "-" + digits;
    assert s[|s| - 1] == digits[|digits| - 1];
    DigitNotSpace(digits[|digits| - 1]);
    if n < 0 {
      assert s[0] == '-' && !IsIntSpace('-');
    } else {
      DigitNotSpace(s[0]);
    }
    IntStripUnspaced(s);
  }

  /** Value of a string of decimal digits, as Python's `int(s)` reads it.
      `ParseInt` gives the value only for the canonical text `str` writes
      (an optional `-`, then digits); whether `int(s)` accepts `s` at all,
      for any text, is `IsIntLiteral`. */
  function ParseNat(s: string): nat {
    if s == [] then 0 else 10 * ParseNat(s[..|s| - 1]) + DigitValue(s[|s| - 1])
  }

  /** Python's `int(s)` on the strings `str` produces. */
  function ParseInt(s: string): int {
    if s != [] && s[0] == '-' then 0 - ParseNat(s[1..]) else ParseNat(s)
  }

  lemma {:induction false} NatToStringRoundTrip(n: nat)
    ensures ParseNat(NatToString(n)) == n
    decreases n
  {
    if n >= 10 {
      var s := NatToString(n / 10);
      NatToStringRoundTrip(n / 10);
      assert (s + [DigitChar(n % 10)])[..|s|] == s;
    }
  }

  /** `int(str(n)) == n`. */
  lemma IntToStringRoundTrip(n: int)
    ensures ParseInt(IntToString(n)) == n
  {
    NatToStringRoundTrip(if n < 0 then -n else n);
    if n < 0 {
      assert ("-" + NatToString(-n))[1..] == NatToString(-n);
    } else {
      assert IsDigit(NatToString(n)[0]);
    }
  }
}
