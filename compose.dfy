/**
  The sentence `performLookup` builds from the rendered fragments: the
  fragments joined as an English list with an Oxford comma, the accessory
  phrase appended, the count of models in parentheses when there is more
  than one, and a leading comma stripped.
 */
module Compose {
  import opened JsText
  import opened Checkbox

  // ---------------------------------------------------------------------
  // The English list

  /** The list of fragments: none gives "", one gives itself, two are joined
      by " and ", and three or more are joined by ", " with ", and " before
      the last. */
  function JoinFragments(xs: seq<string>): (r: string)
  {
    if |xs| == 0 then ""
    else if |xs| == 1 then xs[0]
    else if |xs| == 2 then xs[0] + " and " + xs[1]
    else Join(xs[..|xs| - 1], ", ") + ", and " + xs[|xs| - 1]
  }

  /** The text between fragment `i` and fragment `i + 1` in a list of `n`. */
  function Separator(n: nat, i: nat): string
  {
    if n == 2 then " and " else if i + 2 == n then ", and " else ", "
  }

  /** The fragments in order, each followed by its separator except the
      last: a reference reading of the list, fragment by fragment. */
  function Weave(xs: seq<string>, n: nat): string
  {
    if |xs| == 0 then ""
    else if |xs| == 1 then xs[0]
    else Weave(xs[..|xs| - 1], n) + Separator(n, |xs| - 2) + xs[|xs| - 1]
  }

  /** Joining with ", " is weaving with its separators, as long as the last
      separator of the whole list is not among them. */
  lemma {:induction false} JoinIsWeave(xs: seq<string>, n: nat)
    requires 1 <= |xs| < n
    ensures Join(xs, ", ") == Weave(xs, n)
    decreases |xs|
  {
    if |xs| > 1 {
      var init := xs[..|xs| - 1];
      JoinIsWeave(init, n);
      JoinSnoc(init, xs[|xs| - 1], ", ");
      assert init + [xs[|xs| - 1]] == xs;
    }
  }

  /** The list is the fragments in input order, with " and " between two,
      and ", " between many except ", and " before the last. */
  lemma JoinFragmentsIsWeave(xs: seq<string>)
    ensures JoinFragments(xs) == Weave(xs, |xs|)
  {
    var n := |xs|;
    if n == 2 {
      assert Weave(xs[..1], n) == xs[0];
    } else if n > 2 {
      JoinIsWeave(xs[..n - 1], n);
    }
  }

  /** Every fragment appears in the list, in order: the list starts with the
      first and ends with the last. */
  lemma JoinFragmentsEnds(xs: seq<string>)
    requires |xs| >= 1
    ensures StartsWith(JoinFragments(xs), xs[0])
    ensures EndsWith(JoinFragments(xs), xs[|xs| - 1])
  {
    JoinFragmentsIsWeave(xs);
    WeaveEnds(xs, |xs|);
  }

  lemma {:induction false} WeaveEnds(xs: seq<string>, n: nat)
    requires |xs| >= 1
    ensures StartsWith(Weave(xs, n), xs[0])
    ensures EndsWith(Weave(xs, n), xs[|xs| - 1])
    decreases |xs|
  {
    if |xs| > 1 {
      var init := xs[..|xs| - 1];
      WeaveEnds(init, n);
      var w := Weave(init, n);
      assert Weave(xs, n)[..|xs[0]|] == w[..|xs[0]|];
    }
  }

  /** Two or more fragments always leave the word "and" of the last
      separator in the list, after its first character. */
  lemma JoinFragmentsHasAnd(xs: seq<string>)
    requires |xs| >= 2
    ensures exists j :: 1 <= j && OccursAt(JoinFragments(xs), "and", j)
  {
    var n := |xs|;
    JoinFragmentsIsWeave(xs);
    var init := xs[..n - 1];
    var w := Weave(init, n);
    var sep := Separator(n, n - 2);
    assert Weave(xs, n) == w + sep + xs[n - 1];
    var j := if n == 2 then |w| + 1 else |w| + 2;
    assert (w + sep + xs[n - 1])[j..j + 3] == "and";
    assert OccursAt(JoinFragments(xs), "and", j);
  }

  // ---------------------------------------------------------------------
  // The tail of the sentence

  /** The accessory phrase appended to the sentence: after ", ", or straight
      after a sentence that already ends with a comma; alone when the
      sentence is empty; nothing when the phrase is empty. */
  function AppendPhrase(sentence: string, phrase: string): (r: string)
    ensures StartsWith(r, sentence) && EndsWith(r, phrase)
    ensures |sentence| + |phrase| <= |r| <= |sentence| + 2 + |phrase|
    ensures phrase == "" ==> r == sentence
    ensures sentence == "" ==> r == phrase
  {
    if phrase == "" then sentence
    else if sentence == "" then phrase
    else if EndsWith(sentence, ",") then sentence + phrase
    else sentence + ", " + phrase
  }

  /** The separator is ", " exactly when both are present and the sentence
      does not end with a comma; otherwise there is none. */
  lemma AppendPhraseSeparator(sentence: string, phrase: string)
    requires sentence != "" && phrase != ""
    ensures var r := AppendPhrase(sentence, phrase);
      r[|sentence|..|r| - |phrase|] == if EndsWith(sentence, ",") then "" else ", "
  {
  }

  /** The text `` (${outputs.length})``. */
  function CountSuffix(n: nat): string
  {
    " (" + NatToString(n) + ")"
  }

  /** The count suffix, for more than one model. */
  function WithCount(s: string, n: nat): (r: string)
    ensures n <= 1 ==> r == s
    ensures n > 1 ==> StartsWith(r, s) && EndsWith(r, ")")
  {
    if n > 1 then s + CountSuffix(n) else s
  }

  /** What follows the sentence for more than one model is the count, in
      decimal digits that read back as the count. */
  lemma WithCountDigits(s: string, n: nat)
    requires n > 1
    ensures var r := WithCount(s, n);
      var digits := r[|s| + 2..|r| - 1];
      r[|s|..|s| + 2] == " (" && AllDigits(digits) && ParseDecimal(digits) == n
  {
    var r := WithCount(s, n);
    assert r == s + (" (" + NatToString(n) + ")");
    assert r[|s| + 2..|r| - 1] == NatToString(n);
    ParseNatToString(n);
  }

  /** The regular expression `^,\s*` replaced by "": a leading comma is
      dropped together with all the whitespace after it. */
  function StripLeadingComma(s: string): (r: string)
    ensures s == [] || s[0] != ',' ==> r == s
    ensures s != [] && s[0] == ',' ==>
      |r| < |s| && r == s[|s| - |r|..] && AllSpace(s[1..|s| - |r|])
      && (r == [] || !IsSpace(r[0]))
  {
    if |s| > 0 && s[0] == ',' then
      var r := TrimStart(s[1..]);
      TrimStartShape(s[1..]);
      assert s[1..][..|s| - 1 - |r|] == s[1..|s| - |r|];
      r
    else s
  }

  /** Appending text after a part that is not all whitespace does not change
      what the leading strip removes. */
  lemma StripLeadingCommaAppend(s: string, t: string)
    requires s != [] && (s[0] != ',' || !AllSpace(s[1..]))
    ensures StripLeadingComma(s + t) == StripLeadingComma(s) + t
  {
    if s[0] == ',' {
      assert (s + t)[1..] == s[1..] + t;
      TrimStartAppend(s[1..], t);
    }
  }

  lemma {:induction false} TrimStartAppend(s: string, t: string)
    requires !AllSpace(s)
    ensures TrimStart(s + t) == TrimStart(s) + t
    decreases |s|
  {
    if IsSpace(s[0]) {
      assert (s + t)[1..] == s[1..] + t;
      assert !AllSpace(s[1..]) by {
        var j :| 0 <= j < |s| && !IsSpace(s[j]);
        assert s[1..][j - 1] == s[j];
      }
      TrimStartAppend(s[1..], t);
    }
  }

  /** The output of `performLookup` for the rendered fragments and the three
      options: the phrase is chosen with the number of fragments. */
  function Assemble(fragments: seq<string>, base: bool, box: bool, certificate: bool): string
  {
    var n := |fragments|;
    var phrase := CheckboxOutput(base, box, certificate, n);
    StripLeadingComma(WithCount(AppendPhrase(JoinFragments(fragments), phrase), n))
  }

  /** When no record resolves, the output is the singular phrase alone. */
  lemma AssembleNothing(base: bool, box: bool, certificate: bool)
    ensures Assemble([], base, box, certificate) == BasePhrase(base, box, certificate)
  {
    PhraseStart(base, box, certificate, 0);
    SingularPhrase(base, box, certificate, 0);
  }

  /** One record: the phrase is singular and there is no count. */
  lemma AssembleOne(fragment: string, base: bool, box: bool, certificate: bool)
    ensures Assemble([fragment], base, box, certificate)
      == StripLeadingComma(AppendPhrase(fragment, BasePhrase(base, box, certificate)))
  {
    SingularPhrase(base, box, certificate, 1);
  }

  /** A sentence with a letter after its first character keeps the count
      suffix clear of the leading strip. */
  lemma CountAfterStrip(sentence: string, phrase: string, n: nat, j: nat)
    requires n > 1 && 1 <= j < |sentence| && sentence[j] == 'a'
    ensures StripLeadingComma(WithCount(AppendPhrase(sentence, phrase), n))
      == StripLeadingComma(AppendPhrase(sentence, phrase)) + CountSuffix(n)
  {
    var s := AppendPhrase(sentence, phrase);
    assert s[..|sentence|] == sentence;
    assert s[1..][j - 1] == s[j];
    StripLeadingCommaAppend(s, CountSuffix(n));
  }

  /** More than one record: the plural phrase, and the count in parentheses
      at the very end, which the leading strip never reaches. */
  lemma AssembleMany(fragments: seq<string>, base: bool, box: bool, certificate: bool)
    requires |fragments| > 1
    ensures Assemble(fragments, base, box, certificate)
      == StripLeadingComma(AppendPhrase(JoinFragments(fragments), PluralPhrase(base, box, certificate)))
         + CountSuffix(|fragments|)
  {
    PluralTable(base, box, certificate, |fragments|);
    var sentence := JoinFragments(fragments);
    JoinFragmentsHasAnd(fragments);
    var j :| 1 <= j && OccursAt(sentence, "and", j);
    assert sentence[j] == sentence[j..j + 3][0];
    CountAfterStrip(sentence, PluralPhrase(base, box, certificate), |fragments|, j);
  }
}
