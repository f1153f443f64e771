/**
  The JavaScript string operations the description composer relies on,
  stated over Dafny strings: whitespace and digit classes, `trim()`,
  `split(',')`, `Array.prototype.join`, `indexOf`, `startsWith`,
  `endsWith`, `String.prototype.replace` with a string pattern (including
  the `$` patterns of its replacement text), ASCII case folding and the
  decimal rendering of a count.
 */
module JsText {

  datatype Option<T> = None | Some(value: T)

  /** A code point in the WhiteSpace or LineTerminator class of ECMAScript
      (sections 12.2 and 12.3 of ECMA-262): what `trim()` removes and what
      the regular expression class `\s` matches. */
  predicate IsSpace(c: char)
  {
    var n := c as int;
    n == 0x09 || n == 0x0A || n == 0x0B || n == 0x0C || n == 0x0D || n == 0x20
    || n == 0xA0 || n == 0x1680 || (0x2000 <= n <= 0x200A)
    || n == 0x2028 || n == 0x2029 || n == 0x202F || n == 0x205F
    || n == 0x3000 || n == 0xFEFF
  }

  /** The regular expression class `\d`: ASCII digits only. */
  predicate IsDigit(c: char)
  {
    '0' <= c <= '9'
  }

  predicate AllSpace(s: string)
  {
    forall i :: 0 <= i < |s| ==> IsSpace(s[i])
  }

  predicate AllDigits(s: string)
  {
    forall i :: 0 <= i < |s| ==> IsDigit(s[i])
  }

  predicate StartsWith(s: string, prefix: string)
  {
    |prefix| <= |s| && s[..|prefix|] == prefix
  }

  predicate EndsWith(s: string, suffix: string)
  {
    |suffix| <= |s| && s[|s| - |suffix|..] == suffix
  }

  // ---------------------------------------------------------------------
  // trim()

  /** Drops the leading whitespace. */
  function TrimStart(s: string): string
  {
    if |s| > 0 && IsSpace(s[0]) then TrimStart(s[1..]) else s
  }

  /** Drops the trailing whitespace. */
  function TrimEnd(s: string): string
  {
    if |s| > 0 && IsSpace(s[|s| - 1]) then TrimEnd(s[..|s| - 1]) else s
  }

  /** `String.prototype.trim`. */
  function Trim(s: string): string
  {
    TrimEnd(TrimStart(s))
  }

  /** What `TrimStart` leaves is a suffix of the text that does not start
      with whitespace, and everything it drops is whitespace. */
  lemma {:induction false} TrimStartShape(s: string)
    ensures var r := TrimStart(s);
      |r| <= |s| && r == s[|s| - |r|..] && AllSpace(s[..|s| - |r|]) && (r == [] || !IsSpace(r[0]))
    decreases |s|
  {
    if |s| > 0 && IsSpace(s[0]) {
      TrimStartShape(s[1..]);
      var r := TrimStart(s);
      assert s[..|s| - |r|] == [s[0]] + s[1..][..|s| - 1 - |r|];
    }
  }

  /** What `TrimEnd` leaves is a prefix of the text that does not end with
      whitespace, and everything it drops is whitespace. */
  lemma {:induction false} TrimEndShape(s: string)
    ensures var r := TrimEnd(s);
      |r| <= |s| && r == s[..|r|] && AllSpace(s[|r|..]) && (r == [] || !IsSpace(r[|r| - 1]))
    decreases |s|
  {
    if |s| > 0 && IsSpace(s[|s| - 1]) {
      TrimEndShape(s[..|s| - 1]);
      var r := TrimEnd(s);
      assert s[|r|..] == s[..|s| - 1][|r|..] + [s[|s| - 1]];
    }
  }

  /** Trim is determined by its result's shape: if `s` is whitespace, then
      `t`, then whitespace, and `t` neither starts nor ends with whitespace,
      then trimming `s` gives `t`. */
  lemma {:induction false} TrimOfPadded(w1: string, t: string, w2: string)
    requires AllSpace(w1) && AllSpace(w2) && Trimmed(t)
    ensures Trim(w1 + t + w2) == t
  {
    if t == [] {
      assert w1 + t + w2 == (w1 + w2) + [];
      TrimStartOfPadded(w1 + w2, []);
    } else {
      TrimStartOfPadded(w1, t + w2);
      assert w1 + t + w2 == w1 + (t + w2);
      TrimEndOfPadded(t, w2);
    }
  }

  lemma {:induction false} TrimStartOfPadded(w: string, t: string)
    requires AllSpace(w)
    requires t == [] || !IsSpace(t[0])
    ensures TrimStart(w + t) == t
    decreases |w|
  {
    if w == [] {
      assert w + t == t;
    } else {
      assert (w + t)[1..] == w[1..] + t;
      TrimStartOfPadded(w[1..], t);
    }
  }

  lemma {:induction false} TrimEndOfPadded(t: string, w: string)
    requires AllSpace(w)
    requires t == [] || !IsSpace(t[|t| - 1])
    ensures TrimEnd(t + w) == t
    decreases |w|
  {
    if w == [] {
      assert t + w == t;
    } else {
      assert (t + w)[..|t + w| - 1] == t + w[..|w| - 1];
      TrimEndOfPadded(t, w[..|w| - 1]);
    }
  }

  /** Text that `trim()` leaves as it is. */
  predicate Trimmed(t: string)
  {
    t == [] || (!IsSpace(t[0]) && !IsSpace(t[|t| - 1]))
  }

  /** Trimming keeps a stretch of the text: it neither starts nor ends with
      whitespace, and every character in it was in the text. */
  lemma TrimShape(s: string)
    ensures Trimmed(Trim(s))
    ensures forall c :: c in Trim(s) ==> c in s
  {
    var u := TrimStart(s);
    var t := TrimEnd(u);
    TrimStartShape(s);
    TrimEndShape(u);
    if t != [] {
      assert t[0] == u[0];
    }
    forall c | c in t
      ensures c in s
    {
      var j :| 0 <= j < |t| && t[j] == c;
      assert u[j] == c;
      assert s[|s| - |u| + j] == c;
    }
  }

  /** Trimmed text is left as it is. */
  lemma TrimTrimmed(t: string)
    requires Trimmed(t)
    ensures Trim(t) == t
  {
    TrimOfPadded([], t, []);
    assert [] + t + [] == t;
  }

  /** Trimming twice is trimming once. */
  lemma TrimIdempotent(s: string)
    ensures Trim(Trim(s)) == Trim(s)
  {
    TrimShape(s);
    TrimTrimmed(Trim(s));
  }

  // ---------------------------------------------------------------------
  // indexOf(c), split(','), join(sep)

  /** `indexOf` of one character: the first position holding `c`. */
  function IndexOf(s: string, c: char): (r: Option<nat>)
    ensures r.Some? ==> r.value < |s| && s[r.value] == c && c !in s[..r.value]
    ensures r.None? ==> c !in s
  {
    if |s| == 0 then None
    else if s[0] == c then Some(0)
    else match IndexOf(s[1..], c)
      case None => None
      case Some(i) =>
        assert s[..i + 1] == [s[0]] + s[1..][..i];
        Some(i + 1)
  }

  /** `String.prototype.split` with a one-character separator: never
      empty, and no piece holds the separator. */
  function Split(s: string, sep: char): (r: seq<string>)
    ensures |r| >= 1
    ensures forall k :: 0 <= k < |r| ==> sep !in r[k]
    decreases |s|
  {
    match IndexOf(s, sep)
    case None => [s]
    case Some(i) => [s[..i]] + Split(s[i + 1..], sep)
  }

  /** `Array.prototype.join`. */
  function Join(pieces: seq<string>, sep: string): (r: string)
  {
    if |pieces| == 0 then ""
    else if |pieces| == 1 then pieces[0]
    else pieces[0] + sep + Join(pieces[1..], sep)
  }

  /** Joining what was split gives back the text. */
  lemma {:induction false} JoinSplit(s: string, sep: char)
    ensures Join(Split(s, sep), [sep]) == s
    decreases |s|
  {
    match IndexOf(s, sep)
    case None =>
    case Some(i) =>
      var rest := Split(s[i + 1..], sep);
      JoinSplit(s[i + 1..], sep);
      assert Split(s, sep) == [s[..i]] + rest;
      assert ([s[..i]] + rest)[1..] == rest;
      assert s == s[..i] + [sep] + s[i + 1..];
  }

  /** Splitting what was joined gives back the pieces, when no piece holds
      the separator. */
  lemma {:induction false} SplitJoin(pieces: seq<string>, sep: char)
    requires |pieces| >= 1
    requires forall k :: 0 <= k < |pieces| ==> sep !in pieces[k]
    ensures Split(Join(pieces, [sep]), sep) == pieces
    decreases |pieces|
  {
    if |pieces| == 1 {
      assert IndexOf(pieces[0], sep).None?;
    } else {
      var head, rest := pieces[0], Join(pieces[1..], [sep]);
      var s := head + [sep] + rest;
      assert s[|head|] == sep;
      assert s[..|head|] == head;
      assert IndexOf(s, sep) == Some(|head|);
      assert s[|head| + 1..] == rest;
      SplitJoin(pieces[1..], sep);
      assert [pieces[0]] + pieces[1..] == pieces;
    }
  }

  lemma {:induction false} JoinSnoc(pieces: seq<string>, last: string, sep: string)
    requires |pieces| >= 1
    ensures Join(pieces + [last], sep) == Join(pieces, sep) + sep + last
    decreases |pieces|
  {
    if |pieces| == 1 {
      assert (pieces + [last])[1..] == [last];
    } else {
      assert (pieces + [last])[1..] == pieces[1..] + [last];
      JoinSnoc(pieces[1..], last, sep);
    }
  }

  // ---------------------------------------------------------------------
  // indexOf(pattern) and replace(pattern, replacement)

  predicate OccursAt(s: string, pat: string, i: nat)
  {
    i + |pat| <= |s| && s[i..i + |pat|] == pat
  }

  function FindFrom(s: string, pat: string, from: nat): (r: Option<nat>)
    ensures r.Some? ==> from <= r.value && OccursAt(s, pat, r.value)
    ensures r.Some? ==> forall j :: from <= j < r.value ==> !OccursAt(s, pat, j)
    ensures r.None? ==> forall j :: from <= j ==> !OccursAt(s, pat, j)
    decreases |s| - from
  {
    if from + |pat| > |s| then None
    else if s[from..from + |pat|] == pat then Some(from)
    else FindFrom(s, pat, from + 1)
  }

  /** `indexOf` of a string: the first position where `pat` occurs. */
  function Find(s: string, pat: string): (r: Option<nat>)
    ensures r.Some? ==> OccursAt(s, pat, r.value)
    ensures r.Some? ==> forall j :: 0 <= j < r.value ==> !OccursAt(s, pat, j)
    ensures r.None? ==> forall j :: !OccursAt(s, pat, j)
  {
    FindFrom(s, pat, 0)
  }

  /** An occurrence at `i` is the first one when some character of the
      pattern, `pat[k]`, does not appear before the place it takes there. */
  lemma FindAt(s: string, pat: string, i: nat, k: nat)
    requires OccursAt(s, pat, i) && k < |pat| && pat[k] !in s[..i + k]
    ensures Find(s, pat) == Some(i)
  {
    forall j | 0 <= j < i
      ensures !OccursAt(s, pat, j)
    {
      assert s[..i + k][j + k] == s[j + k];
      if j + |pat| <= |s| {
        assert s[j..j + |pat|][k] == s[j + k];
      }
    }
  }

  /** A pattern does not occur in `s` when one of its characters, `pat[k]`,
      appears nowhere in `s` from position `k` on (an occurrence at `j`
      would put it at `j + k`). */
  lemma FindAbsent(s: string, pat: string, k: nat)
    requires k < |pat| && (k <= |s| ==> pat[k] !in s[k..])
    ensures Find(s, pat) == None
  {
    forall j: nat
      ensures !OccursAt(s, pat, j)
    {
      if j + |pat| <= |s| {
        assert s[j..j + |pat|][k] == s[j + k];
        assert s[k..][j] == s[j + k];
      }
    }
  }

  /** The replacement text of `String.prototype.replace` for a string
      pattern (the GetSubstitution operation of ECMA-262, section 22.1.3.19.1,
      with no capture groups): `$$` gives `$`, `$&` the matched text, `` $` ``
      the text before the match and `$'` the text after it; every other `$`
      is literal. */
  function Substitute(rep: string, matched: string, before: string, after: string): (r: string)
    ensures '$' !in rep ==> r == rep
    decreases |rep|
  {
    if |rep| == 0 then ""
    else if rep[0] == '$' && |rep| >= 2 && rep[1] in "$&`'" then
      (if rep[1] == '$' then "$" else if rep[1] == '&' then matched
       else if rep[1] == '`' then before else after)
      + Substitute(rep[2..], matched, before, after)
    else
      [rep[0]] + Substitute(rep[1..], matched, before, after)
  }

  /** `String.prototype.replace` with a string pattern: only the first
      occurrence is replaced. */
  function Replace(s: string, pat: string, rep: string): (r: string)
  {
    match Find(s, pat)
    case None => s
    case Some(i) => s[..i] + Substitute(rep, pat, s[..i], s[i + |pat|..]) + s[i + |pat|..]
  }

  /** With no `$` in the replacement, `replace` puts `rep` in place of the
      first occurrence of `pat` and leaves everything else alone. */
  lemma ReplaceFirst(s: string, pat: string, rep: string)
    requires '$' !in rep
    ensures Find(s, pat).None? ==> Replace(s, pat, rep) == s
    ensures Find(s, pat).Some? ==>
      var i := Find(s, pat).value;
      Replace(s, pat, rep) == s[..i] + rep + s[i + |pat|..]
  {
  }

  /** The same for a text given as the part before the first occurrence,
      the pattern and the rest. */
  lemma ReplaceAt(before: string, pat: string, after: string, rep: string, k: nat)
    requires '$' !in rep && k < |pat| && pat[k] !in before + pat[..k]
    ensures Replace(before + pat + after, pat, rep) == before + rep + after
  {
    var s := before + pat + after;
    assert s[|before|..|before| + |pat|] == pat;
    assert s[..|before| + k] == before + pat[..k];
    FindAt(s, pat, |before|, k);
    ReplaceFirst(s, pat, rep);
    assert s[..|before|] == before;
    assert s[|before| + |pat|..] == after;
  }

  /** The same for a text that starts with the pattern. */
  lemma ReplaceAtStart(pat: string, after: string, rep: string)
    requires '$' !in rep && |pat| > 0
    ensures Replace(pat + after, pat, rep) == rep + after
  {
    var s := pat + after;
    assert s[..|pat|] == pat;
    FindAt(s, pat, 0, 0);
    ReplaceFirst(s, pat, rep);
    assert s[|pat|..] == after;
  }

  /** A pattern that does not occur leaves the text unchanged. */
  lemma ReplaceAbsent(s: string, pat: string, rep: string, k: nat)
    requires k < |pat| && (k <= |s| ==> pat[k] !in s[k..])
    ensures Replace(s, pat, rep) == s
  {
    FindAbsent(s, pat, k);
  }

  // ---------------------------------------------------------------------
  // toLowerCase(), ASCII only

  function LowerChar(c: char): (r: char)
  {
    if 'A' <= c <= 'Z' then (c as int + 32) as char else c
  }

  function ToLower(s: string): (r: string)
    ensures |r| == |s|
    ensures forall i :: 0 <= i < |s| ==> r[i] == LowerChar(s[i])
  {
    seq(|s|, i requires 0 <= i < |s| => LowerChar(s[i]))
  }

  /** The comparison `a.toLowerCase() === b.toLowerCase()`. */
  predicate SameIgnoringCase(a: string, b: string)
  {
    ToLower(a) == ToLower(b)
  }

  /** Case-insensitive equality is an equivalence and includes equality. */
  lemma SameIgnoringCaseIsEquivalence(a: string, b: string, c: string)
    ensures SameIgnoringCase(a, a)
    ensures SameIgnoringCase(a, b) ==> SameIgnoringCase(b, a)
    ensures SameIgnoringCase(a, b) && SameIgnoringCase(b, c) ==> SameIgnoringCase(a, c)
  {
  }

  // ---------------------------------------------------------------------
  // Decimal rendering of a count, as in a template literal `${n}`

  function DigitChar(d: nat): (c: char)
    requires d < 10
    ensures IsDigit(c)
  {
    ('0' as int + d) as char
  }

  function NatToString(n: nat): (r: string)
    ensures |r| >= 1 && AllDigits(r)
    ensures |r| > 1 ==> r[0] != '0'
  {
    if n < 10 then [DigitChar(n)] else NatToString(n / 10) + [DigitChar(n % 10)]
  }

  function DigitValue(c: char): nat
    requires IsDigit(c)
  {
    c as int - '0' as int
  }

  /** Reads a run of decimal digits. */
  function ParseDecimal(s: string): nat
    requires AllDigits(s)
  {
    if |s| == 0 then 0 else 10 * ParseDecimal(s[..|s| - 1]) + DigitValue(s[|s| - 1])
  }

  /** Reading back the rendered count gives the count. */
  lemma {:induction false} ParseNatToString(n: nat)
    ensures ParseDecimal(NatToString(n)) == n
  {
    if n >= 10 {
      var r := NatToString(n);
      assert r[..|r| - 1] == NatToString(n / 10);
      ParseNatToString(n / 10);
    }
  }
}
