/**
 * The candidate builder, `versionChoices` of tasks/bower-update.js: the
 * replacement targets offered for one version, either a single form with a
 * forced range character or the strict, caret and tilde forms.
 */
module Choices {
  import opened Semver

  /** What a list entry says next to its value (the source's coloured text). */
  datatype Label = KeepCurrent | Forced | OnlyStrict | AnyMinor | AnyPatch

  /** The text of a non-selectable separator line. */
  datatype Note = MaxSame | MaxIs(max: Version) | LatestIs(latest: Version)

  /** An entry of an inquirer list: a selectable choice or a separator. */
  datatype Item = Choice(kind: Label, value: string) | Separator(note: Note)

  /** A single-choice list question: the package it is about, its entries and its default value. */
  datatype Question = Question(name: string, choices: seq<Item>, defaultValue: string)

  /** The range prefixes offered for a version under a forced range character. */
  function Prefixes(rangeChar: string): (ps: seq<string>)
    ensures |ps| == (if rangeChar != "" then 1 else 3)
  {
    if rangeChar != "" then [rangeChar] else ["", "^", "~"]
  }

  function VersionChoices(version: Version, rangeChar: string): (r: seq<Item>)
    ensures |r| == |Prefixes(rangeChar)|
    ensures forall i :: 0 <= i < |r| ==>
      r[i].Choice? && r[i].value == Prefixes(rangeChar)[i] + Text(version)
  {
    if rangeChar != "" then
      [Choice(Forced, rangeChar + Text(version))]
    else
      [Choice(OnlyStrict, Text(version)),
       Choice(AnyMinor, "^" + Text(version)),
       Choice(AnyPatch, "~" + Text(version))]
  }

  /**
   * Two offered targets are the same string only when they name the same version
   * with the same prefix: the forms of one version are pairwise distinct, and
   * the forms of two distinct versions never collide.
   */
  lemma PrefixedTextInjective(rangeChar: string, p: string, a: Version, q: string, b: Version)
    requires p in Prefixes(rangeChar) && q in Prefixes(rangeChar)
    requires p + Text(a) == q + Text(b)
    ensures p == q && a == b
  {
    var sa, sb := p + Text(a), q + Text(b);
    if rangeChar == "" {
      assert |p| <= 1 && |q| <= 1;
      assert sa[0] == if p == "" then Text(a)[0] else p[0];
      assert sb[0] == if q == "" then Text(b)[0] else q[0];
    }
    assert p == q;
    assert Text(a) == sa[|p|..] == sb[|q|..] == Text(b);
    TextInjective(a, b);
  }

  /** The strict, caret and tilde forms of one version are three distinct targets. */
  lemma VersionChoicesDistinct(version: Version, rangeChar: string, i: nat, j: nat)
    requires i < j < |VersionChoices(version, rangeChar)|
    ensures VersionChoices(version, rangeChar)[i].value != VersionChoices(version, rangeChar)[j].value
  {
    var ps := Prefixes(rangeChar);
    if VersionChoices(version, rangeChar)[i].value == VersionChoices(version, rangeChar)[j].value {
      PrefixedTextInjective(rangeChar, ps[i], version, ps[j], version);
      assert false;
    }
  }
}
