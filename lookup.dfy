/**
  `performLookup`: the model-number and limited-edition texts are split into
  tokens, each model number is looked up in the record table, every record
  found is rendered and pushed onto the list of fragments, and the sentence
  is assembled from the fragments and the three accessory options.

  The table is a parameter (the page fills it from a CSV file), the texts
  and the options are parameters (the page reads them from its form), and
  the sentence and the state of the copy button are the results (the page
  writes them back).
 */
module Lookup {
  import opened JsText
  import opened Checkbox
  import opened Render
  import opened Compose

  /** A row of the table: its `model_number` and `description` columns. */
  datatype Record = Record(modelNumber: string, description: string)

  // ---------------------------------------------------------------------
  // Tokens

  /** `text.trim().split(',').map(num => num.trim())`. */
  function Tokenise(text: string): (r: seq<string>)
    ensures |r| >= 1
  {
    TrimEach(Split(Trim(text), ','))
  }

  /** `pieces.map(num => num.trim())`. */
  function TrimEach(pieces: seq<string>): (r: seq<string>)
    ensures |r| == |pieces|
    ensures forall i :: 0 <= i < |r| ==> r[i] == Trim(pieces[i])
  {
    if |pieces| == 0 then [] else TrimEach(pieces[..|pieces| - 1]) + [Trim(pieces[|pieces| - 1])]
  }

  /** Every token is trimmed and holds no comma. */
  lemma TokensClean(text: string)
    ensures forall i :: 0 <= i < |Tokenise(text)| ==>
      Trimmed(Tokenise(text)[i]) && ',' !in Tokenise(text)[i]
  {
    var pieces := Split(Trim(text), ',');
    forall i | 0 <= i < |pieces|
      ensures Trimmed(Trim(pieces[i])) && ',' !in Trim(pieces[i])
    {
      TrimShape(pieces[i]);
    }
  }

  /** Model numbers written with ", " between them give back the model
      numbers, when each is trimmed and free of commas; empty ones
      included. */
  lemma TokeniseJoin(xs: seq<string>)
    requires |xs| >= 1
    requires forall i :: 0 <= i < |xs| ==> Trimmed(xs[i]) && ',' !in xs[i]
    ensures Tokenise(Join(xs, ", ")) == xs
  {
    var pieces := PiecesOfJoin(xs);
    TokeniseOfPieces(Join(xs, ", "), pieces, xs);
  }

  /** The pieces `split(',')` makes of the trimmed text: every piece but the
      first starts with the space, except a last empty part, whose space
      `trim()` has removed; trimming a piece gives its part. */
  lemma PiecesOfJoin(xs: seq<string>) returns (ys: seq<string>)
    requires |xs| >= 1
    requires forall i :: 0 <= i < |xs| ==> Trimmed(xs[i]) && ',' !in xs[i]
    ensures Split(Trim(Join(xs, ", ")), ',') == ys && |ys| == |xs|
    ensures forall i :: 0 <= i < |xs| ==> Trim(ys[i]) == xs[i]
  {
    var n := |xs|;
    if n == 1 || xs[n - 1] != "" {
      ys := SpacedPieces(xs);
      SplitJoin(ys, ',');
      JoinTrimmed(xs);
      TrimTrimmed(Join(xs, ", "));
    } else {
      InitLast(xs);
      ys := PiecesOfJoinEmptyLast(xs[..n - 1]);
    }
  }

  /** The same when the last part is empty. */
  lemma PiecesOfJoinEmptyLast(init: seq<string>) returns (ys: seq<string>)
    requires |init| >= 1
    requires forall i :: 0 <= i < |init| ==> Trimmed(init[i]) && ',' !in init[i]
    ensures Split(Trim(Join(init + [""], ", ")), ',') == ys && |ys| == |init| + 1
    ensures forall i :: 0 <= i < |init| ==> Trim(ys[i]) == init[i]
    ensures Trim(ys[|init|]) == ""
  {
    var zs := SpacedPieces(init);
    ys := zs + [""];
    var j := Join(init, ", ");
    JoinSnoc(zs, "", [',']);
    assert Join(ys, [',']) == j + ",";
    JoinSnoc(init, "", ", ");
    assert Join(init + [""], ", ") == j + ", ";
    JoinEmptyLast(init);
    assert forall k :: 0 <= k < |zs| ==> ys[k] == zs[k];
    SplitJoin(ys, ',');
    assert Trim("") == "";
  }

  /** A last empty part leaves a comma and a space at the end, and
      trimming drops the space. */
  lemma JoinEmptyLast(init: seq<string>)
    requires |init| >= 1
    requires forall i :: 0 <= i < |init| ==> Trimmed(init[i])
    ensures Trim(Join(init, ", ") + ", ") == Join(init, ", ") + ","
  {
    JoinStart(init);
    TrimCommaSpace(Join(init, ", "));
  }

  lemma TrimCommaSpace(j: string)
    requires j == [] || !IsSpace(j[0])
    ensures Trim(j + ", ") == j + ","
  {
    var t := j + ",";
    assert Trimmed(t) by {
      assert t[0] == if j == [] then ',' else j[0];
    }
    assert AllSpace(" ");
    TrimOfPadded([], t, " ");
    assert [] + t + " " == j + ", ";
  }

  /** A join of trimmed parts starts with a comma or a non-space, when it
      is not empty. */
  lemma JoinStart(xs: seq<string>)
    requires |xs| >= 1
    requires forall i :: 0 <= i < |xs| ==> Trimmed(xs[i])
    ensures Join(xs, ", ") == [] || !IsSpace(Join(xs, ", ")[0])
  {
    if |xs| > 1 {
      var j := Join(xs, ", ");
      assert j == xs[0] + ", " + Join(xs[1..], ", ");
      assert j[0] == if xs[0] == [] then ',' else xs[0][0];
    }
  }

  lemma SpacedPieces(xs: seq<string>) returns (ys: seq<string>)
    requires |xs| >= 1
    requires forall i :: 0 <= i < |xs| ==> Trimmed(xs[i]) && ',' !in xs[i]
    ensures Join(ys, [',']) == Join(xs, ", ") && |ys| == |xs|
    ensures forall k :: 0 <= k < |ys| ==> ',' !in ys[k]
    ensures forall i :: 0 <= i < |xs| ==> Trim(ys[i]) == xs[i]
  {
    ys := seq(|xs|, i requires 0 <= i < |xs| => if i == 0 then xs[0] else " " + xs[i]);
    JoinWithSpace(xs, ys);
    TrimSpaced(xs, ys);
  }

  lemma TokeniseOfPieces(text: string, pieces: seq<string>, xs: seq<string>)
    requires Split(Trim(text), ',') == pieces && |pieces| == |xs|
    requires forall i :: 0 <= i < |xs| ==> Trim(pieces[i]) == xs[i]
    ensures Tokenise(text) == xs
  {
    TrimEachIs(pieces, xs);
  }

  lemma TrimEachIs(pieces: seq<string>, xs: seq<string>)
    requires |pieces| == |xs|
    requires forall i :: 0 <= i < |xs| ==> Trim(pieces[i]) == xs[i]
    ensures TrimEach(pieces) == xs
  {
  }

  /** Trimming the pieces of a text joined with ", " gives back the parts:
      every piece but the first starts with the space. */
  lemma TrimSpaced(xs: seq<string>, ys: seq<string>)
    requires |xs| >= 1 && |ys| == |xs| && ys[0] == xs[0]
    requires forall i :: 1 <= i < |xs| ==> ys[i] == " " + xs[i]
    requires forall i :: 0 <= i < |xs| ==> Trimmed(xs[i]) && ',' !in xs[i]
    ensures forall k :: 0 <= k < |ys| ==> ',' !in ys[k]
    ensures forall i :: 0 <= i < |xs| ==> Trim(ys[i]) == xs[i]
  {
    forall i | 0 <= i < |xs|
      ensures ',' !in ys[i] && Trim(ys[i]) == xs[i]
    {
      if i == 0 {
        TrimTrimmed(xs[0]);
      } else {
        TrimAfterSpace(xs[i]);
      }
    }
  }

  lemma TrimAfterSpace(x: string)
    requires Trimmed(x)
    ensures Trim(" " + x) == x
  {
    assert AllSpace(" ");
    TrimOfPadded(" ", x, []);
    assert " " + x + [] == " " + x;
  }

  lemma {:induction false} JoinWithSpace(xs: seq<string>, ys: seq<string>)
    requires |xs| >= 1 && |ys| == |xs| && ys[0] == xs[0]
    requires forall i :: 1 <= i < |xs| ==> ys[i] == " " + xs[i]
    ensures Join(xs, ", ") == Join(ys, [','])
    decreases |xs|
  {
    if |xs| > 1 {
      var xs', ys' := xs[..|xs| - 1], ys[..|ys| - 1];
      JoinWithSpace(xs', ys');
      JoinSnoc(xs', xs[|xs| - 1], ", ");
      JoinSnoc(ys', ys[|ys| - 1], [',']);
      assert xs' + [xs[|xs| - 1]] == xs;
      assert ys' + [ys[|ys| - 1]] == ys;
    }
  }

  /** The joined text is trimmed when its last part is not empty. */
  lemma JoinTrimmed(xs: seq<string>)
    requires |xs| >= 1 && (|xs| == 1 || xs[|xs| - 1] != "")
    requires forall i :: 0 <= i < |xs| ==> Trimmed(xs[i])
    ensures Trimmed(Join(xs, ", "))
  {
    var n := |xs|;
    if n > 1 {
      var init := xs[..n - 1];
      JoinSnoc(init, xs[n - 1], ", ");
      InitLast(xs);
      JoinStart(init);
      TrimmedSnoc(Join(init, ", "), xs[n - 1]);
    }
  }

  lemma TrimmedSnoc(j: string, last: string)
    requires (j == [] || !IsSpace(j[0])) && last != [] && Trimmed(last)
    ensures Trimmed(j + ", " + last)
  {
    var t := j + ", " + last;
    assert t[0] == if j == [] then ',' else j[0];
    assert t[|t| - 1] == last[|last| - 1];
  }

  lemma InitLast<T>(xs: seq<T>)
    requires |xs| >= 1
    ensures xs[..|xs| - 1] + [xs[|xs| - 1]] == xs
  {
  }

  // ---------------------------------------------------------------------
  // Lookup

  /** The index of the first record whose model number matches the token,
      ignoring case: `modelsData.find(...)`. */
  function FirstMatch(records: seq<Record>, token: string): (r: Option<nat>)
    ensures r.Some? ==> r.value < |records| && SameIgnoringCase(records[r.value].modelNumber, token)
    ensures r.Some? ==> forall j :: 0 <= j < r.value ==> !SameIgnoringCase(records[j].modelNumber, token)
    ensures r.None? ==> forall j :: 0 <= j < |records| ==> !SameIgnoringCase(records[j].modelNumber, token)
  {
    if |records| == 0 then None
    else if SameIgnoringCase(records[0].modelNumber, token) then Some(0)
    else match FirstMatch(records[1..], token)
      case None => None
      case Some(i) => Some(i + 1)
  }

  function Lookup(records: seq<Record>, token: string): (r: Option<Record>)
    ensures r.Some? <==> FirstMatch(records, token).Some?
    ensures r.Some? ==> r.value == records[FirstMatch(records, token).value]
  {
    match FirstMatch(records, token)
    case None => None
    case Some(i) => Some(records[i])
  }

  /** Tokens that differ only in case find the same record. */
  lemma {:induction false} LookupIgnoresCase(records: seq<Record>, t1: string, t2: string)
    requires SameIgnoringCase(t1, t2)
    ensures Lookup(records, t1) == Lookup(records, t2)
    decreases |records|
  {
    if |records| > 0 {
      SameIgnoringCaseIsEquivalence(records[0].modelNumber, t1, t2);
      SameIgnoringCaseIsEquivalence(records[0].modelNumber, t2, t1);
      LookupIgnoresCase(records[1..], t1, t2);
    }
  }

  // ---------------------------------------------------------------------
  // The pass over the tokens

  /** The state the `forEach` keeps: the rendered fragments and whether the
      next record found keeps the brand prefix. */
  datatype PassState = PassState(outputs: seq<string>, includeBrand: bool)

  /** One iteration: the token at `index` either resolves, and its record is
      rendered with the numerator at the same index, or adds nothing. */
  function Step(records: seq<Record>, editions: seq<string>, st: PassState, index: nat, token: string): PassState
  {
    match Lookup(records, token)
    case None => st
    case Some(record) =>
      PassState(st.outputs + [RenderRecord(record.description, EditionAt(editions, index), st.includeBrand)], false)
  }

  /** The state after the iterations over `tokens`, in order. */
  function RenderPass(records: seq<Record>, tokens: seq<string>, editions: seq<string>): PassState
  {
    if |tokens| == 0 then PassState([], true)
    else Step(records, editions, RenderPass(records, tokens[..|tokens| - 1], editions), |tokens| - 1, tokens[|tokens| - 1])
  }

  /** A token that resolved: its input position and its record. */
  datatype Hit = Hit(position: nat, record: Record)

  /** Exactly the tokens that resolve, in input order. */
  function Hits(records: seq<Record>, tokens: seq<string>): (h: seq<Hit>)
    ensures |h| <= |tokens|
    ensures forall k :: 0 <= k < |h| ==>
      h[k].position < |tokens| && Lookup(records, tokens[h[k].position]) == Some(h[k].record)
    ensures forall k, l :: 0 <= k < l < |h| ==> h[k].position < h[l].position
  {
    if |tokens| == 0 then []
    else
      var n := |tokens| - 1;
      var init := Hits(records, tokens[..n]);
      assert forall i :: 0 <= i < n ==> tokens[..n][i] == tokens[i];
      match Lookup(records, tokens[n])
      case None => init
      case Some(record) => init + [Hit(n, record)]
  }

  /** No resolving token is missed. */
  lemma {:induction false} HitsComplete(records: seq<Record>, tokens: seq<string>, i: nat)
    requires i < |tokens| && Lookup(records, tokens[i]).Some?
    ensures exists k :: 0 <= k < |Hits(records, tokens)| && Hits(records, tokens)[k].position == i
    decreases |tokens|
  {
    var n := |tokens| - 1;
    var h := Hits(records, tokens);
    var init := Hits(records, tokens[..n]);
    if i == n {
      assert h[|h| - 1].position == n;
    } else {
      assert tokens[..n][i] == tokens[i];
      HitsComplete(records, tokens[..n], i);
      var k :| 0 <= k < |init| && init[k].position == i;
      assert h[k] == init[k];
    }
  }

  /** The fragments are the records of the resolved tokens, in input order,
      each rendered with the numerator at its token's own input position;
      only the first keeps the brand prefix. */
  lemma {:induction false} RenderPassPositional(records: seq<Record>, tokens: seq<string>, editions: seq<string>)
    ensures var st := RenderPass(records, tokens, editions);
      var h := Hits(records, tokens);
      |st.outputs| == |h| && st.includeBrand == (|h| == 0) &&
      forall k :: 0 <= k < |h| ==>
        st.outputs[k] == RenderRecord(h[k].record.description, EditionAt(editions, h[k].position), k == 0)
    decreases |tokens|
  {
    if |tokens| > 0 {
      var n := |tokens| - 1;
      RenderPassPositional(records, tokens[..n], editions);
      var st0, h0 := RenderPass(records, tokens[..n], editions), Hits(records, tokens[..n]);
      match Lookup(records, tokens[n])
      case None =>
        assert RenderPass(records, tokens, editions) == st0;
        assert Hits(records, tokens) == h0;
      case Some(record) =>
        var fragment := RenderRecord(record.description, EditionAt(editions, n), st0.includeBrand);
        PassAppend(st0.outputs, fragment, h0, Hit(n, record), editions, st0.includeBrand);
    }
  }

  /** Appending the rendering of one more hit keeps the fragments and the
      hits in step. */
  lemma PassAppend(outputs: seq<string>, fragment: string, h: seq<Hit>, hit: Hit,
                   editions: seq<string>, includeBrand: bool)
    requires |outputs| == |h| && includeBrand == (|h| == 0)
    requires forall k :: 0 <= k < |h| ==>
      outputs[k] == RenderRecord(h[k].record.description, EditionAt(editions, h[k].position), k == 0)
    requires fragment == RenderRecord(hit.record.description, EditionAt(editions, hit.position), includeBrand)
    ensures var o, h' := outputs + [fragment], h + [hit];
      |o| == |h'| &&
      forall k :: 0 <= k < |h'| ==>
        o[k] == RenderRecord(h'[k].record.description, EditionAt(editions, h'[k].position), k == 0)
  {
    var o, h' := outputs + [fragment], h + [hit];
    forall k | 0 <= k < |h'|
      ensures o[k] == RenderRecord(h'[k].record.description, EditionAt(editions, h'[k].position), k == 0)
    {
      if k < |h| {
        assert o[k] == outputs[k] && h'[k] == h[k];
      } else {
        assert o[k] == fragment && h'[k] == hit;
      }
    }
  }

  /** The output for the table, the two texts and the three options. */
  function ComposeOutput(records: seq<Record>, modelText: string, editionText: string,
                         base: bool, box: bool, certificate: bool): string
  {
    var pass := RenderPass(records, Tokenise(modelText), Tokenise(editionText));
    Assemble(pass.outputs, base, box, certificate)
  }

  /** Tokens that resolve nowhere leave only the singular phrase. */
  lemma NothingResolved(records: seq<Record>, modelText: string, editionText: string,
                        base: bool, box: bool, certificate: bool)
    requires forall i :: 0 <= i < |Tokenise(modelText)| ==> Lookup(records, Tokenise(modelText)[i]).None?
    ensures ComposeOutput(records, modelText, editionText, base, box, certificate) == BasePhrase(base, box, certificate)
  {
    NoHitsNoFragments(records, Tokenise(modelText), Tokenise(editionText));
    AssembleNothing(base, box, certificate);
  }

  lemma NoHitsNoFragments(records: seq<Record>, tokens: seq<string>, editions: seq<string>)
    requires forall i :: 0 <= i < |tokens| ==> Lookup(records, tokens[i]).None?
    ensures RenderPass(records, tokens, editions).outputs == []
  {
    RenderPassPositional(records, tokens, editions);
  }

  /** At most one fragment per token. */
  lemma FragmentsBounded(records: seq<Record>, tokens: seq<string>, editions: seq<string>)
    ensures |RenderPass(records, tokens, editions).outputs| <= |tokens|
  {
    RenderPassPositional(records, tokens, editions);
  }

  // ---------------------------------------------------------------------
  // The procedure

  /** `performLookup`, as the page runs it: the sentence is the one
      `ComposeOutput` describes, and copying is enabled exactly when the
      sentence is non-empty. */
  method PerformLookup(records: seq<Record>, modelText: string, editionText: string,
                       base: bool, box: bool, certificate: bool)
    returns (output: string, copyEnabled: bool)
    ensures output == ComposeOutput(records, modelText, editionText, base, box, certificate)
    ensures copyEnabled <==> output != ""
  {
    var modelNumbers := Tokenise(modelText);
    var limitedEditionNumbers := Tokenise(editionText);
    var outputs := RenderAll(records, modelNumbers, limitedEditionNumbers);
    output := AssembleSentence(outputs, base, box, certificate);
    copyEnabled := output != "";
  }

  /** The `forEach` over the model numbers: each one found is rendered and
      pushed, and the brand flag is cleared by the first one found. */
  method RenderAll(records: seq<Record>, modelNumbers: seq<string>, editions: seq<string>)
    returns (outputs: seq<string>)
    ensures outputs == RenderPass(records, modelNumbers, editions).outputs
  {
    outputs := [];
    var includeBrand := true;
    var index := 0;
    while index < |modelNumbers|
      invariant 0 <= index <= |modelNumbers|
      invariant PassState(outputs, includeBrand) == RenderPass(records, modelNumbers[..index], editions)
    {
      RenderPassSnoc(records, modelNumbers, editions, index);
      var modelInfo := Lookup(records, modelNumbers[index]);
      if modelInfo.Some? {
        var description := RenderDescription(modelInfo.value.description, editions, index, includeBrand);
        includeBrand := false;
        outputs := outputs + [description];
      }
      index := index + 1;
    }
    assert modelNumbers[..index] == modelNumbers;
  }

  /** One more token is one more step. */
  lemma RenderPassSnoc(records: seq<Record>, tokens: seq<string>, editions: seq<string>, i: nat)
    requires i < |tokens|
    ensures RenderPass(records, tokens[..i + 1], editions)
      == Step(records, editions, RenderPass(records, tokens[..i], editions), i, tokens[i])
  {
    assert tokens[..i + 1][..i] == tokens[..i];
  }

  /** The description of one record found, rewritten step by step. */
  method RenderDescription(description: string, editions: seq<string>, index: nat, includeBrand: bool)
    returns (rendered: string)
    ensures rendered == RenderRecord(description, EditionAt(editions, index), includeBrand)
  {
    rendered := description;
    if index < |editions| && editions[index] != "" {
      rendered := SubstituteEdition(rendered, editions[index]);
    }
    ghost var numbered := rendered;
    if !includeBrand {
      rendered := StripBrand(rendered);
    }
    ghost var branded := rendered;
    assert branded == if includeBrand then numbered else StripBrand(numbered);
    var firstCommaIndex := IndexOf(rendered, ',');
    if firstCommaIndex.Some? {
      var i := firstCommaIndex.value;
      rendered := Open + rendered[..i + 1] + Close + rendered[i + 1..];
    }
    assert rendered == Bold(branded);
    rendered := CleanFraction(rendered);
  }

  /** The sentence built in place from the fragments and the options. */
  method AssembleSentence(outputs: seq<string>, base: bool, box: bool, certificate: bool)
    returns (finalOutput: string)
    ensures finalOutput == Assemble(outputs, base, box, certificate)
  {
    finalOutput := "";
    if |outputs| == 1 {
      finalOutput := outputs[0];
    } else if |outputs| == 2 {
      finalOutput := outputs[0] + " and " + outputs[1];
    } else if |outputs| > 2 {
      finalOutput := Join(outputs[..|outputs| - 1], ", ") + ", and " + outputs[|outputs| - 1];
    }
    assert finalOutput == JoinFragments(outputs);

    var checkboxOutput := CheckboxOutput(base, box, certificate, |outputs|);
    if checkboxOutput != "" {
      if finalOutput != "" {
        if !EndsWith(finalOutput, ",") {
          finalOutput := finalOutput + ", " + checkboxOutput;
        } else {
          finalOutput := finalOutput + checkboxOutput;
        }
      } else {
        finalOutput := checkboxOutput;
      }
    }

    if |outputs| > 1 {
      finalOutput := finalOutput + CountSuffix(|outputs|);
    }

    finalOutput := StripLeadingComma(finalOutput);
  }
}
