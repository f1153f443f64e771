/**
  The accessory phrase (`getCheckboxOutput`): a fixed English phrase for the
  combination of the wood-base, box and certificate options, put into the
  plural when the description covers more than one model.

  The phrases are written as concatenations of the three words that the
  pluralisation replaces; each is the same string as the literal in the
  source (for example `WoodBase + ", with " + Box` is "on wood base, with box").
 */
module Checkbox {
  import opened JsText

  const WoodBase := "on wood base"
  const Box := "box"
  const Certificate := "certificate"
  const WoodBases := "on wood bases"
  const Boxes := "boxes"
  const Certificates := "certificates"

  /** The phrase chosen by the if/else chain, before pluralisation. */
  function BasePhrase(base: bool, box: bool, certificate: bool): string
  {
    if base && box && certificate then WoodBase + ", with " + Box + " and " + Certificate
    else if base && box then WoodBase + ", with " + Box
    else if base && certificate then WoodBase + " and with " + Certificate
    else if box && certificate then "with " + Box + " and " + Certificate
    else if base then WoodBase
    else if box then "with " + Box
    else if certificate then "with " + Certificate
    else ""
  }

  /** The pluralisation chain of `getCheckboxOutput`: the first "box",
      "certificate" and "on wood base" each replaced, in that order. */
  function Pluralise(phrase: string): string
  {
    Replace(Replace(Replace(phrase, Box, Boxes), Certificate, Certificates), WoodBase, WoodBases)
  }

  /** `getCheckboxOutput(baseChecked, boxChecked, certificateChecked, numberOfModels)`. */
  function CheckboxOutput(base: bool, box: bool, certificate: bool, numberOfModels: int): string
  {
    var phrase := BasePhrase(base, box, certificate);
    if numberOfModels > 1 then Pluralise(phrase) else phrase
  }

  /** The plural phrase of each combination, as an independent table. */
  function PluralPhrase(base: bool, box: bool, certificate: bool): string
  {
    if base && box && certificate then WoodBases + ", with " + Boxes + " and " + Certificates
    else if base && box then WoodBases + ", with " + Boxes
    else if base && certificate then WoodBases + " and with " + Certificates
    else if box && certificate then "with " + Boxes + " and " + Certificates
    else if base then WoodBases
    else if box then "with " + Boxes
    else if certificate then "with " + Certificates
    else ""
  }

  /** One or no models: the phrase of the table, unchanged. */
  lemma SingularPhrase(base: bool, box: bool, certificate: bool, numberOfModels: int)
    requires numberOfModels <= 1
    ensures CheckboxOutput(base, box, certificate, numberOfModels) == BasePhrase(base, box, certificate)
  {
  }

  // Each combination's pluralisation, step by step: where each word is
  // first found (or that it is absent), and what replacing it leaves. The
  // layout facts of each combination are stated in a lemma of their own.

  /** Replacing the first "box" when the text before it has no 'x'. */
  lemma ReplaceBox(before: string, after: string)
    requires 'x' !in before + "bo"
    ensures Replace(before + Box + after, Box, Boxes) == before + Boxes + after
  {
    ReplaceAt(before, Box, after, Boxes, 2);
  }

  /** Replacing the first "certificate" when the text before it has no 'f'. */
  lemma ReplaceCertificate(before: string, after: string)
    requires 'f' !in before + "certi"
    ensures Replace(before + Certificate + after, Certificate, Certificates) == before + Certificates + after
  {
    ReplaceAt(before, Certificate, after, Certificates, 5);
  }

  /** Replacing "on wood base" at the very start. */
  lemma ReplaceWoodBase(after: string)
    ensures Replace(WoodBase + after, WoodBase, WoodBases) == WoodBases + after
  {
    ReplaceAtStart(WoodBase, after, WoodBases);
  }

  /** A text without an 'x' has no "box" to replace. */
  lemma KeepBox(s: string)
    requires 'x' !in s
    ensures Replace(s, Box, Boxes) == s
  {
    ReplaceAbsent(s, Box, Boxes, 2);
  }

  /** A text without an 'f' has no "certificate" to replace. */
  lemma KeepCertificate(s: string)
    requires 'f' !in s
    ensures Replace(s, Certificate, Certificates) == s
  {
    ReplaceAbsent(s, Certificate, Certificates, 5);
  }

  /** A text with no 'w' after its first three characters has no
      "on wood base" to replace. */
  lemma KeepWoodBase(s: string)
    requires 3 <= |s| ==> 'w' !in s[3..]
    ensures Replace(s, WoodBase, WoodBases) == s
  {
    ReplaceAbsent(s, WoodBase, WoodBases, 3);
  }

  lemma BaseBoxCertificateLayout()
    ensures WoodBase + ", with " + Box + " and " + Certificate == (WoodBase + ", with ") + Box + (" and " + Certificate)
    ensures 'x' !in (WoodBase + ", with ") + "bo"
    ensures (WoodBase + ", with ") + Boxes + (" and " + Certificate) == (WoodBase + ", with " + Boxes + " and ") + Certificate + ""
    ensures 'f' !in (WoodBase + ", with " + Boxes + " and ") + "certi"
    ensures (WoodBase + ", with " + Boxes + " and ") + Certificates + "" == WoodBase + (", with " + Boxes + " and " + Certificates)
    ensures WoodBases + (", with " + Boxes + " and " + Certificates) == WoodBases + ", with " + Boxes + " and " + Certificates
  {
  }

  lemma PluraliseBaseBoxCertificate(phrase: string)
    requires phrase == WoodBase + ", with " + Box + " and " + Certificate
    ensures Pluralise(phrase) == WoodBases + ", with " + Boxes + " and " + Certificates
  {
    BaseBoxCertificateLayout();
    ReplaceBox(WoodBase + ", with ", " and " + Certificate);
    ReplaceCertificate(WoodBase + ", with " + Boxes + " and ", "");
    ReplaceWoodBase(", with " + Boxes + " and " + Certificates);
  }

  lemma BaseBoxLayout()
    ensures WoodBase + ", with " + Box == (WoodBase + ", with ") + Box + ""
    ensures 'x' !in (WoodBase + ", with ") + "bo"
    ensures (WoodBase + ", with ") + Boxes + "" == WoodBase + (", with " + Boxes)
    ensures 'f' !in WoodBase + (", with " + Boxes)
    ensures WoodBases + (", with " + Boxes) == WoodBases + ", with " + Boxes
  {
  }

  lemma PluraliseBaseBox(phrase: string)
    requires phrase == WoodBase + ", with " + Box
    ensures Pluralise(phrase) == WoodBases + ", with " + Boxes
  {
    BaseBoxLayout();
    ReplaceBox(WoodBase + ", with ", "");
    KeepCertificate(WoodBase + (", with " + Boxes));
    ReplaceWoodBase(", with " + Boxes);
  }

  lemma BaseCertificateLayout()
    ensures 'x' !in WoodBase + " and with " + Certificate
    ensures WoodBase + " and with " + Certificate == (WoodBase + " and with ") + Certificate + ""
    ensures 'f' !in (WoodBase + " and with ") + "certi"
    ensures (WoodBase + " and with ") + Certificates + "" == WoodBase + (" and with " + Certificates)
    ensures WoodBases + (" and with " + Certificates) == WoodBases + " and with " + Certificates
  {
  }

  lemma PluraliseBaseCertificate(phrase: string)
    requires phrase == WoodBase + " and with " + Certificate
    ensures Pluralise(phrase) == WoodBases + " and with " + Certificates
  {
    BaseCertificateLayout();
    KeepBox(phrase);
    ReplaceCertificate(WoodBase + " and with ", "");
    ReplaceWoodBase(" and with " + Certificates);
  }

  lemma BoxCertificateLayout()
    ensures "with " + Box + " and " + Certificate == "with " + Box + (" and " + Certificate)
    ensures 'x' !in "with " + "bo"
    ensures "with " + Boxes + (" and " + Certificate) == ("with " + Boxes + " and ") + Certificate + ""
    ensures 'f' !in ("with " + Boxes + " and ") + "certi"
    ensures ("with " + Boxes + " and ") + Certificates + "" == "with " + Boxes + " and " + Certificates
    ensures 3 <= |"with " + Boxes + " and " + Certificates| ==> 'w' !in ("with " + Boxes + " and " + Certificates)[3..]
  {
  }

  lemma PluraliseBoxCertificate(phrase: string)
    requires phrase == "with " + Box + " and " + Certificate
    ensures Pluralise(phrase) == "with " + Boxes + " and " + Certificates
  {
    BoxCertificateLayout();
    ReplaceBox("with ", " and " + Certificate);
    ReplaceCertificate("with " + Boxes + " and ", "");
    KeepWoodBase("with " + Boxes + " and " + Certificates);
  }

  lemma BaseLayout()
    ensures 'x' !in WoodBase
    ensures 'f' !in WoodBase
  {
  }

  lemma PluraliseBase(phrase: string)
    requires phrase == WoodBase
    ensures Pluralise(phrase) == WoodBases
  {
    BaseLayout();
    KeepBox(phrase);
    KeepCertificate(phrase);
    ReplaceWoodBase("");
    assert WoodBase + "" == WoodBase;
    assert WoodBases + "" == WoodBases;
  }

  lemma BoxLayout()
    ensures "with " + Box == "with " + Box + ""
    ensures 'x' !in "with " + "bo"
    ensures 'f' !in "with " + Boxes + ""
    ensures 3 <= |"with " + Boxes + ""| ==> 'w' !in ("with " + Boxes + "")[3..]
    ensures "with " + Boxes + "" == "with " + Boxes
  {
  }

  lemma PluraliseBox(phrase: string)
    requires phrase == "with " + Box
    ensures Pluralise(phrase) == "with " + Boxes
  {
    BoxLayout();
    ReplaceBox("with ", "");
    KeepCertificate("with " + Boxes + "");
    KeepWoodBase("with " + Boxes + "");
  }

  lemma CertificateLayout()
    ensures 'x' !in "with " + Certificate
    ensures "with " + Certificate == "with " + Certificate + ""
    ensures 'f' !in "with " + "certi"
    ensures 3 <= |"with " + Certificates + ""| ==> 'w' !in ("with " + Certificates + "")[3..]
    ensures "with " + Certificates + "" == "with " + Certificates
  {
  }

  lemma PluraliseCertificate(phrase: string)
    requires phrase == "with " + Certificate
    ensures Pluralise(phrase) == "with " + Certificates
  {
    CertificateLayout();
    KeepBox(phrase);
    ReplaceCertificate("with ", "");
    KeepWoodBase("with " + Certificates + "");
  }

  lemma PluraliseNothing(phrase: string)
    requires phrase == ""
    ensures Pluralise(phrase) == ""
  {
    KeepBox(phrase);
    KeepCertificate(phrase);
    KeepWoodBase(phrase);
  }

  /** More than one model: replacing the first "box", "certificate" and
      "on wood base" gives the plural table, combination by combination. */
  lemma PluralTable(base: bool, box: bool, certificate: bool, numberOfModels: int)
    requires numberOfModels > 1
    ensures CheckboxOutput(base, box, certificate, numberOfModels) == PluralPhrase(base, box, certificate)
  {
    if base && box && certificate { PluraliseBaseBoxCertificate(BasePhrase(base, box, certificate)); }
    else if base && box { PluraliseBaseBox(BasePhrase(base, box, certificate)); }
    else if base && certificate { PluraliseBaseCertificate(BasePhrase(base, box, certificate)); }
    else if box && certificate { PluraliseBoxCertificate(BasePhrase(base, box, certificate)); }
    else if base { PluraliseBase(BasePhrase(base, box, certificate)); }
    else if box { PluraliseBox(BasePhrase(base, box, certificate)); }
    else if certificate { PluraliseCertificate(BasePhrase(base, box, certificate)); }
    else { PluraliseNothing(BasePhrase(base, box, certificate)); }
  }

  /** The phrase is empty exactly when no option is selected. */
  lemma PhraseEmptyIff(base: bool, box: bool, certificate: bool, numberOfModels: int)
    ensures CheckboxOutput(base, box, certificate, numberOfModels) == "" <==> !base && !box && !certificate
  {
    if numberOfModels > 1 {
      PluralTable(base, box, certificate, numberOfModels);
    }
  }

  /** The wood base alone, for two models. */
  lemma PluralWoodBase()
    ensures CheckboxOutput(true, false, false, 2) == "on wood bases"
  {
    PluralTable(true, false, false, 2);
  }

  /** Every phrase starts with "on" or "with", so never with a comma. */
  lemma PhraseStart(base: bool, box: bool, certificate: bool, numberOfModels: int)
    ensures var p := CheckboxOutput(base, box, certificate, numberOfModels);
      p == "" || StartsWith(p, "on ") || StartsWith(p, "with ")
  {
    if numberOfModels > 1 {
      PluralTable(base, box, certificate, numberOfModels);
    }
  }
}
