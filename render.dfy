/**
  The rendering of one resolved record's description (the body of the
  `forEach` in `performLookup`): the limited-edition numerator put in place
  of the first edition marker (a star and a slash), the brand prefix dropped from every record but the
  first, the text up to and including the first comma wrapped in
  `<strong>` tags, and the comma after the first "digits/digits" run
  dropped.
 */
module Render {
  import opened JsText

  // ---------------------------------------------------------------------
  // Limited-edition numerator

  const EditionMarker := "*/"

  /** `description.replace(EditionMarker, numerator + '/')`. */
  function SubstituteEdition(description: string, numerator: string): (r: string)
  {
    Replace(description, EditionMarker, numerator + "/")
  }

  /** Only the first marker is replaced, by the numerator and a slash; a
      description without the marker is unchanged. */
  lemma SubstituteEditionFirst(description: string, numerator: string)
    requires '$' !in numerator
    ensures Find(description, EditionMarker).None? ==> SubstituteEdition(description, numerator) == description
    ensures Find(description, EditionMarker).Some? ==>
      var i := Find(description, EditionMarker).value;
      SubstituteEdition(description, numerator)
        == description[..i] + numerator + "/" + description[i + 2..]
  {
    ReplaceFirst(description, EditionMarker, numerator + "/");
  }

  /** A description whose first marker stands after `before` gets the
      numerator there, and the rest is kept. */
  lemma SubstituteEditionAt(before: string, after: string, numerator: string)
    requires '$' !in numerator && '*' !in before
    ensures SubstituteEdition(before + EditionMarker + after, numerator) == before + numerator + "/" + after
  {
    ReplaceAt(before, EditionMarker, after, numerator + "/", 0);
  }

  /** The numerator at the token's input position, when the source's
      `limitedEditionNumbers[index]` is truthy: in range and non-empty. */
  function EditionAt(editions: seq<string>, index: nat): (r: Option<string>)
    ensures r.Some? <==> index < |editions| && editions[index] != ""
    ensures r.Some? ==> r.value == editions[index]
  {
    if index < |editions| && editions[index] != "" then Some(editions[index]) else None
  }

  // ---------------------------------------------------------------------
  // Brand prefix, the regular expression ^Border Fine Arts\s*

  const Brand := "Border Fine Arts"

  function StripBrand(s: string): (r: string)
    ensures !StartsWith(s, Brand) ==> r == s
    ensures StartsWith(s, Brand) ==>
      |Brand| + |r| <= |s| && s == Brand + s[|Brand|..|s| - |r|] + r
      && AllSpace(s[|Brand|..|s| - |r|]) && (r == [] || !IsSpace(r[0]))
  {
    if StartsWith(s, Brand) then
      var r := TrimStart(s[|Brand|..]);
      TrimStartShape(s[|Brand|..]);
      assert s[|Brand|..][..|s| - |Brand| - |r|] == s[|Brand|..|s| - |r|];
      assert s == s[..|Brand|] + s[|Brand|..|s| - |r|] + s[|s| - |r|..];
      r
    else s
  }

  /** The brand, any whitespace, then text not starting with whitespace:
      stripping leaves exactly that text. */
  lemma StripBrandOfPadded(w: string, t: string)
    requires AllSpace(w) && (t == [] || !IsSpace(t[0]))
    ensures StripBrand(Brand + w + t) == t
  {
    var s := Brand + w + t;
    assert s[..|Brand|] == Brand;
    assert s[|Brand|..] == w + t;
    TrimStartOfPadded(w, t);
  }

  // ---------------------------------------------------------------------
  // Bolding up to the first comma

  const Open := "<strong>"
  const Close := "</strong>"

  /** The first comma and everything before it, wrapped in bold tags. */
  function Bold(s: string): (r: string)
  {
    match IndexOf(s, ',')
    case None => s
    case Some(i) => Open + s[..i + 1] + Close + s[i + 1..]
  }

  /** The bold part ends at the first comma, wherever it is (inside
      parentheses too), and the comma stays inside the tags. */
  lemma BoldAtFirstComma(s: string, i: nat)
    requires i < |s| && s[i] == ',' && ',' !in s[..i]
    ensures Bold(s) == Open + s[..i + 1] + Close + s[i + 1..]
  {
  }

  /** Text without a comma is not bolded. */
  lemma BoldNoComma(s: string)
    requires ',' !in s
    ensures Bold(s) == s
  {
  }

  /** Removes the tag pair that `Bold` adds: an opening tag at the start and
      a closing tag right after the first comma that follows it. */
  function Unbold(r: string): (s: string)
  {
    if StartsWith(r, Open) then
      var t := r[|Open|..];
      match IndexOf(t, ',')
      case None => r
      case Some(i) =>
        if StartsWith(t[i + 1..], Close) then t[..i + 1] + t[i + 1 + |Close|..] else r
    else r
  }

  /** Removing the two tags always gives back the text. */
  lemma UnboldBold(s: string)
    ensures Unbold(Bold(s)) == s
  {
    match IndexOf(s, ',')
    case None =>
    case Some(i) =>
      var u, v := s[..i], s[i + 1..];
      assert s[..i + 1] == u + [','];
      UnboldAt(u, v);
      assert s == u + [','] + v;
  }

  /** The tags around text whose only comma so far is its last character. */
  lemma UnboldAt(u: string, v: string)
    requires ',' !in u
    ensures Unbold(Open + (u + [',']) + Close + v) == u + [','] + v
  {
    var r := Open + (u + [',']) + Close + v;
    assert r[..|Open|] == Open;
    var t := u + [','] + (Close + v);
    assert r[|Open|..] == t;
    IndexOfAfter(u, Close + v);
    assert t[|u| + 1..] == Close + v;
    assert (Close + v)[..|Close|] == Close;
    assert t[..|u| + 1] == u + [','];
    assert t[|u| + 1 + |Close|..] == v;
  }

  /** The first comma of `u + [','] + w` is the one after `u`. */
  lemma IndexOfAfter(u: string, w: string)
    requires ',' !in u
    ensures IndexOf(u + [','] + w, ',') == Some(|u|)
  {
    var t := u + [','] + w;
    assert t[|u|] == ',';
    assert forall j :: 0 <= j < |u| ==> t[j] == u[j];
    assert forall j :: |u| < j <= |t| ==> t[..j][|u|] == ',';
  }

  // ---------------------------------------------------------------------
  // The regular expression (\d+\/\d+),? replaced by $1

  /** The end of the run of digits starting at `p`. */
  function RunEnd(s: string, p: nat): (q: nat)
    requires p <= |s|
    ensures p <= q <= |s|
    decreases |s| - p
  {
    if p < |s| && IsDigit(s[p]) then RunEnd(s, p + 1) else p
  }

  /** The run is all digits and is followed by a non-digit or the end. */
  lemma {:induction false} RunEndShape(s: string, p: nat)
    requires p <= |s|
    ensures var q := RunEnd(s, p);
      AllDigits(s[p..q]) && (q == |s| || !IsDigit(s[q]))
    decreases |s| - p
  {
    if p < |s| && IsDigit(s[p]) {
      RunEndShape(s, p + 1);
      var q := RunEnd(s, p);
      assert s[p..q] == [s[p]] + s[p + 1..q];
    }
  }

  /** The regular expression `\d+\/\d` matches at `p`, its `/` at `k`: the
      definition the matcher follows, one digit or more, a slash, a digit. */
  predicate MatchesAt(s: string, p: nat, k: nat)
  {
    p < k && k + 1 < |s| && AllDigits(s[p..k]) && s[k] == '/' && IsDigit(s[k + 1])
  }

  /** The same test by the end of the digit run that starts at `p`. */
  predicate FractionAt(s: string, p: nat)
  {
    p < |s| && IsDigit(s[p]) &&
    var k := RunEnd(s, p);
    k + 1 < |s| && s[k] == '/' && IsDigit(s[k + 1])
  }

  /** A match at `p` has its slash exactly where the digit run from `p`
      ends. */
  lemma MatchSlash(s: string, p: nat, k: nat)
    requires MatchesAt(s, p, k)
    ensures RunEnd(s, p) == k
  {
    var q := RunEnd(s, p);
    RunEndShape(s, p);
    assert forall j :: p <= j < k ==> s[p..k][j - p] == s[j];
    assert forall j :: p <= j < q ==> s[p..q][j - p] == s[j];
  }

  /** So the two tests agree. */
  lemma FractionAtIff(s: string, p: nat)
    ensures FractionAt(s, p) <==> exists k: nat :: MatchesAt(s, p, k)
  {
    if FractionAt(s, p) {
      RunEndShape(s, p);
      assert MatchesAt(s, p, RunEnd(s, p));
    }
    if exists k: nat :: MatchesAt(s, p, k) {
      var k: nat :| MatchesAt(s, p, k);
      MatchSlash(s, p, k);
    }
  }

  /** The leftmost position from `from` on where the pattern matches. */
  function FirstFractionFrom(s: string, from: nat): (r: Option<nat>)
    ensures r.Some? ==> from <= r.value && FractionAt(s, r.value)
    decreases |s| - from
  {
    if from >= |s| then None
    else if FractionAt(s, from) then Some(from)
    else FirstFractionFrom(s, from + 1)
  }

  /** The position found has no match before it, and none found means no
      match at all. */
  lemma {:induction false} FirstFractionFromLeast(s: string, from: nat)
    ensures var r := FirstFractionFrom(s, from);
      (r.Some? ==> forall p: nat :: from <= p < r.value ==> !FractionAt(s, p))
      && (r.None? ==> forall p: nat :: from <= p ==> !FractionAt(s, p))
    decreases |s| - from
  {
    if from < |s| && !FractionAt(s, from) {
      FirstFractionFromLeast(s, from + 1);
    }
  }

  /** Conversely, a match with none before it is the one found. */
  lemma {:induction false} FirstFractionFromAt(s: string, from: nat, p: nat)
    requires from <= p && FractionAt(s, p)
    requires forall p': nat :: from <= p' < p ==> !FractionAt(s, p')
    ensures FirstFractionFrom(s, from) == Some(p)
    decreases p - from
  {
    if from < p {
      FirstFractionFromAt(s, from + 1, p);
    }
  }

  /** The end of the whole `\d+\/\d+` match at `p`: the second run is greedy. */
  function FractionEnd(s: string, p: nat): (e: nat)
    requires FractionAt(s, p)
    ensures RunEnd(s, p) + 1 < e <= |s|
    ensures e == |s| || !IsDigit(s[e])
  {
    var k := RunEnd(s, p);
    RunEndShape(s, k + 1);
    RunEnd(s, k + 1)
  }

  /** `description.replace(/(\d+\/\d+),?/, '$1')`: the comma straight after
      the first match, if there is one, is removed. */
  function CleanFraction(s: string): (r: string)
    ensures |s| - 1 <= |r| <= |s|
  {
    match FirstFractionFrom(s, 0)
    case None => s
    case Some(p) =>
      var e := FractionEnd(s, p);
      if e < |s| && s[e] == ',' then s[..e] + s[e + 1..] else s
  }

  /** At most one character goes, and only a comma. */
  lemma CleanFractionRemovesComma(s: string)
    ensures var r := CleanFraction(s);
      r == s || exists e :: 0 <= e < |s| && s[e] == ',' && r == s[..e] + s[e + 1..]
  {
  }

  /** Text where the pattern matches nowhere is unchanged. */
  lemma CleanFractionNoMatch(s: string)
    requires forall p: nat, k: nat :: !MatchesAt(s, p, k)
    ensures CleanFraction(s) == s
  {
    match FirstFractionFrom(s, 0)
    case None =>
    case Some(p) =>
      FractionAtIff(s, p);
  }

  /** Only the leftmost match, with its slash at `k`, is looked at: the comma
      right after its second digit run is removed, and with no comma there
      the text is unchanged, whatever matches come later. */
  lemma CleanFractionFirstMatch(s: string, p: nat, k: nat)
    requires MatchesAt(s, p, k)
    requires forall p': nat, k': nat :: p' < p ==> !MatchesAt(s, p', k')
    ensures var e := RunEnd(s, k + 1);
      CleanFraction(s) == if e < |s| && s[e] == ',' then s[..e] + s[e + 1..] else s
  {
    FirstMatchFound(s, p, k);
    CleanFractionAt(s, p, k);
  }

  /** The search stops at the leftmost match, and its first run ends at the
      slash. */
  lemma FirstMatchFound(s: string, p: nat, k: nat)
    requires MatchesAt(s, p, k)
    requires forall p': nat, k': nat :: p' < p ==> !MatchesAt(s, p', k')
    ensures FirstFractionFrom(s, 0) == Some(p) && RunEnd(s, p) == k
  {
    NoEarlierFraction(s, p);
    FractionAtIff(s, p);
    FirstFractionFromAt(s, 0, p);
    MatchSlash(s, p, k);
  }

  /** The cleanup at the match found, its first run ending at `k`. */
  lemma CleanFractionAt(s: string, p: nat, k: nat)
    requires FirstFractionFrom(s, 0) == Some(p) && RunEnd(s, p) == k
    ensures var e := RunEnd(s, k + 1);
      CleanFraction(s) == if e < |s| && s[e] == ',' then s[..e] + s[e + 1..] else s
  {
  }

  lemma NoEarlierFraction(s: string, p: nat)
    requires forall p': nat, k': nat :: p' < p ==> !MatchesAt(s, p', k')
    ensures forall p': nat :: p' < p ==> !FractionAt(s, p')
  {
    forall p': nat | p' < p
      ensures !FractionAt(s, p')
    {
      FractionAtIff(s, p');
    }
  }

  // ---------------------------------------------------------------------
  // One record

  /** The description of a resolved record as it is pushed onto `outputs`:
      `edition` is the numerator at the token's position, if any, and
      `keepBrand` holds for the first resolved record only. */
  function RenderRecord(description: string, edition: Option<string>, keepBrand: bool): (r: string)
  {
    var numbered := if edition.Some? then SubstituteEdition(description, edition.value) else description;
    var branded := if keepBrand then numbered else StripBrand(numbered);
    CleanFraction(Bold(branded))
  }

  /** With no numerator, no comma and no fraction, the first record's
      description is shown as it is, and a later record's loses only the
      brand prefix. */
  lemma RenderPlain(description: string, keepBrand: bool)
    requires ',' !in description
    requires forall p: nat, k: nat :: !MatchesAt(description, p, k)
    ensures RenderRecord(description, None, keepBrand)
      == if keepBrand then description else StripBrand(description)
  {
    var branded := if keepBrand then description else StripBrand(description);
    var off := |description| - |branded|;
    StripBrandSuffix(description);
    assert branded == description[off..];
    assert forall i :: 0 <= i < |branded| ==> branded[i] == description[off + i];
    BoldNoComma(branded);
    MatchesInSuffix(description, off);
    CleanFractionNoMatch(branded);
  }

  /** What the brand strip leaves is a suffix of the text. */
  lemma StripBrandSuffix(s: string)
    ensures var r := StripBrand(s);
      |r| <= |s| && r == s[|s| - |r|..]
  {
    var r := StripBrand(s);
    if StartsWith(s, Brand) {
      var m := s[|Brand|..|s| - |r|];
      assert s == (Brand + m) + r;
      assert |Brand + m| == |s| - |r|;
    }
  }

  /** A match in a suffix of the text is a match in the text. */
  lemma MatchesInSuffix(s: string, off: nat)
    requires off <= |s|
    ensures forall p: nat, k: nat :: MatchesAt(s[off..], p, k) ==> MatchesAt(s, p + off, k + off)
  {
    forall p: nat, k: nat | MatchesAt(s[off..], p, k)
      ensures MatchesAt(s, p + off, k + off)
    {
      assert s[off..][p..k] == s[p + off..k + off];
    }
  }
}
