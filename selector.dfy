/**
 * The update selector, `chooseVersions` of tasks/bower-update.js: compute
 * each package's minimum and maximum satisfying versions, keep the packages
 * for which an update is offered, and choose a new target for each of them by
 * the `choose` function, by `forceLatest`, or by asking the operator.
 */
module Selector {
  import opened Wrappers
  import opened Semver
  import opened Choices
  import opened Packages

  /** `options.rangeChar || pkg.rangeChar`. */
  function EffectiveChar(optChar: string, pkgChar: string): string {
    if optChar != "" then optChar else pkgChar
  }

  /** The latest version under the effective range character: the forced value and the question's default. */
  function LatestTarget(optChar: string, pkgChar: string, latest: Version): string {
    EffectiveChar(optChar, pkgChar) + Text(latest)
  }

  /**
   * The question asked about one package: keep the current target first; then
   * the forms of the maximum satisfying version unless it equals the minimum;
   * then the forms of the latest version unless it equals the maximum.
   */
  function QuestionFor(optChar: string, name: string, target: string, pkgChar: string,
                       min: Option<Version>, max: Option<Version>, latest: Version): (q: Question)
    requires min.None? <==> max.None?
  {
    Question(name, [Choice(KeepCurrent, target)] + MaxPart(optChar, min, max) + LatestPart(optChar, max, latest),
             LatestTarget(optChar, pkgChar, latest))
  }

  /** The entries about the maximum satisfying version. */
  function MaxPart(optChar: string, min: Option<Version>, max: Option<Version>): seq<Item>
    requires min.None? <==> max.None?
  {
    if min == max then [Separator(MaxSame)]
    else [Separator(MaxIs(max.value))] + VersionChoices(max.value, optChar)
  }

  /** The entries about the latest version. */
  function LatestPart(optChar: string, max: Option<Version>, latest: Version): seq<Item> {
    if max != Some(latest) then [Separator(LatestIs(latest))] + VersionChoices(latest, optChar) else []
  }

  /** Past its separator, the choices about the maximum are its forms; there are none when it is the minimum. */
  lemma MaxPartEntry(optChar: string, min: Option<Version>, max: Option<Version>, j: nat)
    requires min.None? <==> max.None?
    requires j < |MaxPart(optChar, min, max)| && MaxPart(optChar, min, max)[j].Choice?
    ensures min != max && 1 <= j
    ensures MaxPart(optChar, min, max)[j].value == Prefixes(optChar)[j - 1] + Text(max.value)
  {
  }

  /** Past its separator, the choices about the latest version are its forms; there are none when it is the maximum. */
  lemma LatestPartEntry(optChar: string, max: Option<Version>, latest: Version, j: nat)
    requires j < |LatestPart(optChar, max, latest)| && LatestPart(optChar, max, latest)[j].Choice?
    ensures max != Some(latest) && 1 <= j
    ensures LatestPart(optChar, max, latest)[j].value == Prefixes(optChar)[j - 1] + Text(latest)
  {
  }

  /** Indexing into three concatenated sequences. */
  lemma ConcatAt<T>(a: seq<T>, b: seq<T>, c: seq<T>, i: nat)
    requires i < |a + b + c|
    ensures (a + b + c)[i] == if i < |a| then a[i] else if i < |a| + |b| then b[i - |a|] else c[i - |a| - |b|]
  {
  }

  /** The question's choices with `push` and `concat`, as the source builds them. */
  method BuildQuestion(optChar: string, name: string, target: string, pkgChar: string,
                       min: Option<Version>, max: Option<Version>, latest: Version)
    returns (q: Question)
    requires min.None? <==> max.None?
    ensures q == QuestionFor(optChar, name, target, pkgChar, min, max, latest)
  {
    var choices := [Choice(KeepCurrent, target)];
    if min == max {
      choices := choices + [Separator(MaxSame)];
    } else {
      choices := choices + [Separator(MaxIs(max.value))];
      choices := choices + VersionChoices(max.value, optChar);
    }
    assert choices == [Choice(KeepCurrent, target)] + MaxPart(optChar, min, max);
    if max != Some(latest) {
      choices := choices + [Separator(LatestIs(latest))];
      choices := choices + VersionChoices(latest, optChar);
    }
    assert choices == [Choice(KeepCurrent, target)] + MaxPart(optChar, min, max) + LatestPart(optChar, max, latest);
    q := Question(name, choices, LatestTarget(optChar, pkgChar, latest));
  }

  /**
   * The shape of the question: it is about the named package, its first choice
   * keeps the current target, the separator after it says that the maximum is
   * the minimum exactly when it is, the latest version gets its own separator
   * exactly when it is not the maximum, and the default is the latest version
   * under the effective range character.
   */
  lemma QuestionShape(optChar: string, name: string, target: string, pkgChar: string,
                      min: Option<Version>, max: Option<Version>, latest: Version)
    requires min.None? <==> max.None?
    ensures var q := QuestionFor(optChar, name, target, pkgChar, min, max, latest);
      && q.name == name
      && |q.choices| >= 2 && q.choices[0] == Choice(KeepCurrent, target)
      && (q.choices[1] == Separator(MaxSame) <==> min == max)
      && (Separator(LatestIs(latest)) in q.choices <==> max != Some(latest))
      && q.defaultValue == LatestTarget(optChar, pkgChar, latest)
  {
    assert Separator(LatestIs(latest)) !in MaxPart(optChar, min, max);
  }

  /** The operator can pick s in this question. */
  predicate Offered(q: Question, s: string) {
    exists i :: 0 <= i < |q.choices| && q.choices[i].Choice? && q.choices[i].value == s
  }

  /** Every answer the operator can give is the current target or a form of the maximum or latest version. */
  lemma OfferedTargets(optChar: string, name: string, target: string, pkgChar: string,
                       min: Option<Version>, max: Option<Version>, latest: Version, s: string)
    requires min.None? <==> max.None?
    requires Offered(QuestionFor(optChar, name, target, pkgChar, min, max, latest), s)
    ensures s == target
      || (exists p :: p in Prefixes(optChar) && min != max && s == p + Text(max.value))
      || (exists p :: p in Prefixes(optChar) && max != Some(latest) && s == p + Text(latest))
  {
    var q := QuestionFor(optChar, name, target, pkgChar, min, max, latest);
    var i :| 0 <= i < |q.choices| && q.choices[i].Choice? && q.choices[i].value == s;
    var w := ChoiceAt(optChar, name, target, pkgChar, min, max, latest, i);
  }

  /**
   * The i-th choice keeps the target, or carries a form `w` of the maximum
   * or of latest, each from its own part of the question.
   */
  lemma ChoiceAt(optChar: string, name: string, target: string, pkgChar: string,
                 min: Option<Version>, max: Option<Version>, latest: Version, i: nat)
    returns (w: string)
    requires min.None? <==> max.None?
    requires var q := QuestionFor(optChar, name, target, pkgChar, min, max, latest);
      i < |q.choices| && q.choices[i].Choice?
    ensures var s := QuestionFor(optChar, name, target, pkgChar, min, max, latest).choices[i].value;
      || s == target
      || (w in Prefixes(optChar) && min != max && s == w + Text(max.value))
      || (w in Prefixes(optChar) && max != Some(latest) && s == w + Text(latest))
  {
    var ps := Prefixes(optChar);
    var mp, lp := MaxPart(optChar, min, max), LatestPart(optChar, max, latest);
    ConcatAt([Choice(KeepCurrent, target)], mp, lp, i);
    w := "";
    if 0 < i < 1 + |mp| {
      MaxPartEntry(optChar, min, max, i - 1);
      w := ps[i - 2];
    } else if i > 0 {
      LatestPartEntry(optChar, max, latest, i - 1 - |mp|);
      w := ps[i - 2 - |mp|];
    }
  }

  /** The forms of the maximum are offered exactly when the maximum differs from the minimum. */
  lemma MaxFormsOfferedIff(optChar: string, name: string, target: string, pkgChar: string,
                           min: Option<Version>, max: Option<Version>, latest: Version, p: string)
    requires min.None? <==> max.None?
    requires max.Some? && p in Prefixes(optChar) && p + Text(max.value) != target
    ensures Offered(QuestionFor(optChar, name, target, pkgChar, min, max, latest), p + Text(max.value))
            <==> min != max
  {
    var q := QuestionFor(optChar, name, target, pkgChar, min, max, latest);
    var s := p + Text(max.value);
    var ps := Prefixes(optChar);
    if min != max {
      var j :| 0 <= j < |ps| && ps[j] == p;
      MaxFormAt(optChar, name, target, pkgChar, min, max, latest, j);
      assert q.choices[2 + j].Choice? && q.choices[2 + j].value == s;
    }
    if Offered(q, s) {
      OfferedTargets(optChar, name, target, pkgChar, min, max, latest, s);
      if min == max {
        var p' :| p' in ps && max != Some(latest) && s == p' + Text(latest);
        PrefixedTextInjective(optChar, p, max.value, p', latest);
      }
    }
  }

  /** The j-th form of the latest version is offered, after the maximum's part, unless the maximum is latest. */
  lemma LatestFormAt(optChar: string, name: string, target: string, pkgChar: string,
                     min: Option<Version>, max: Option<Version>, latest: Version, j: nat)
    requires min.None? <==> max.None?
    requires max != Some(latest) && j < |Prefixes(optChar)|
    ensures var q := QuestionFor(optChar, name, target, pkgChar, min, max, latest);
      && 2 + |MaxPart(optChar, min, max)| + j < |q.choices|
      && q.choices[2 + |MaxPart(optChar, min, max)| + j] == VersionChoices(latest, optChar)[j]
  {
    var mp, lp := MaxPart(optChar, min, max), LatestPart(optChar, max, latest);
    ConcatAt([Choice(KeepCurrent, target)], mp, lp, 2 + |mp| + j);
  }

  /** The j-th form of the maximum is offered right after its separator when the maximum is not the minimum. */
  lemma MaxFormAt(optChar: string, name: string, target: string, pkgChar: string,
                  min: Option<Version>, max: Option<Version>, latest: Version, j: nat)
    requires min.None? <==> max.None?
    requires min != max && j < |Prefixes(optChar)|
    ensures var q := QuestionFor(optChar, name, target, pkgChar, min, max, latest);
      && 2 + j < |q.choices| && q.choices[2 + j] == VersionChoices(max.value, optChar)[j]
  {
    var mp, lp := MaxPart(optChar, min, max), LatestPart(optChar, max, latest);
    ConcatAt([Choice(KeepCurrent, target)], mp, lp, 2 + j);
  }

  /** The forms of the latest version are offered unless the maximum is latest and equals the minimum. */
  lemma LatestFormsOfferedIff(optChar: string, name: string, target: string, pkgChar: string,
                              min: Option<Version>, max: Option<Version>, latest: Version, p: string)
    requires min.None? <==> max.None?
    requires p in Prefixes(optChar) && p + Text(latest) != target
    ensures Offered(QuestionFor(optChar, name, target, pkgChar, min, max, latest), p + Text(latest))
            <==> max != Some(latest) || min != max
  {
    var q := QuestionFor(optChar, name, target, pkgChar, min, max, latest);
    var s := p + Text(latest);
    var ps := Prefixes(optChar);
    var j :| 0 <= j < |ps| && ps[j] == p;
    if max != Some(latest) {
      LatestFormAt(optChar, name, target, pkgChar, min, max, latest, j);
      var i := 2 + |MaxPart(optChar, min, max)| + j;
      assert q.choices[i].Choice? && q.choices[i].value == s;
    } else if min != max {
      MaxFormAt(optChar, name, target, pkgChar, min, max, latest, j);
      assert q.choices[2 + j].Choice? && q.choices[2 + j].value == s;
    }
    if Offered(q, s) {
      OfferedTargets(optChar, name, target, pkgChar, min, max, latest, s);
    }
  }

  /**
   * For an update candidate the default value is among the choices whenever its
   * range character is one the choices use.
   */
  lemma DefaultOffered(optChar: string, name: string, target: string, pkgChar: string,
                       min: Option<Version>, max: Option<Version>, latest: Version)
    requires min.None? <==> max.None?
    requires min != Some(latest)
    requires EffectiveChar(optChar, pkgChar) in Prefixes(optChar)
    ensures Offered(QuestionFor(optChar, name, target, pkgChar, min, max, latest),
                    LatestTarget(optChar, pkgChar, latest))
  {
    var q := QuestionFor(optChar, name, target, pkgChar, min, max, latest);
    var s := LatestTarget(optChar, pkgChar, latest);
    if s == target {
      assert q.choices[0].value == s;
    } else {
      LatestFormsOfferedIff(optChar, name, target, pkgChar, min, max, latest, EffectiveChar(optChar, pkgChar));
    }
  }

  /** A one-character prefix other than "^", "~" or a digit never yields a strict, caret or tilde form. */
  lemma ForeignPrefixNotOffered(c: string, latest: Version, p: string, v: Version)
    requires |c| == 1 && c != "^" && c != "~" && !IsDigit(c[0])
    requires p in Prefixes("")
    ensures c + Text(latest) != p + Text(v)
  {
    var s, t := c + Text(latest), p + Text(v);
    assert s[0] == c[0];
    assert t[0] == if p == "" then Text(v)[0] else p[0];
    assert c == [c[0]];
  }

  /**
   * Without a forced range character, a package whose own range character is
   * neither "^", "~" nor a digit (">" of ">=1.0.0", "v" of "v1.0.0") gets a
   * default that no choice carries, unless it is the current target.
   */
  lemma DefaultNotOffered(name: string, target: string, pkgChar: string,
                          min: Option<Version>, max: Option<Version>, latest: Version)
    requires min.None? <==> max.None?
    requires |pkgChar| == 1 && pkgChar != "^" && pkgChar != "~" && !IsDigit(pkgChar[0])
    requires LatestTarget("", pkgChar, latest) != target
    ensures !Offered(QuestionFor("", name, target, pkgChar, min, max, latest), LatestTarget("", pkgChar, latest))
  {
    var s := LatestTarget("", pkgChar, latest);
    forall p, v | p in Prefixes("") ensures s != p + Text(v) {
      ForeignPrefixNotOffered(pkgChar, latest, p, v);
    }
    if Offered(QuestionFor("", name, target, pkgChar, min, max, latest), s) {
      OfferedTargets("", name, target, pkgChar, min, max, latest, s);
      assert false;
    }
  }

  /**
   * A digit range character glues onto the version it prefixes: "1.x" has
   * range character "1", so forcing latest 2.0.0 yields "12.0.0".
   */
  lemma DigitRangeCharGlues(lib: Library)
    requires Truthy(lib.validRange("1.x")) && lib.valid("1.x") != Some("1.x")
    ensures RangeChar(lib, "1.x") == "1"
    ensures LatestTarget("", RangeChar(lib, "1.x"), Version(2, 0, 0)) == "12.0.0"
  {
    assert Text(Version(2, 0, 0)) == "2.0.0";
  }

  // ---------------------------------------------------------------------------
  // The selector over the package objects

  /** `pkg.min` and `pkg.max` hold the minimum and maximum satisfying versions. */
  predicate Resolved(lib: Library, p: Package)
    reads p`versions, p`min, p`max
  {
    p.min == MinSatisfying(lib, p.versions, p.range) && p.max == MaxSatisfying(lib, p.versions, p.range)
  }

  /** Every package of `ps` is resolved. */
  predicate AllResolved(lib: Library, ps: seq<Package>)
    reads ps`versions, ps`min, ps`max
  {
    forall p :: p in ps ==> Resolved(lib, p)
  }

  /** `pkg.min = minSatisfying(...)` and `pkg.max = semver.maxSatisfying(...)` for one package. */
  method Resolve(lib: Library, p: Package)
    modifies p`min, p`max
    ensures Resolved(lib, p)
  {
    p.min, p.max := MinSatisfying(lib, p.versions, p.range), MaxSatisfying(lib, p.versions, p.range);
  }

  /** `deps.filter(...)`: the update candidates, in their order. */
  function Candidates(ps: seq<Package>): seq<Package>
    reads ps`latest, ps`min
  {
    if ps == [] then []
    else
      var init, last := ps[..|ps| - 1], ps[|ps| - 1];
      assert forall p :: p in init ==> p in ps;
      Candidates(init) + (if last.IsCandidate() then [last] else [])
  }

  /** The candidates are exactly the packages of `ps` that are update candidates. */
  lemma {:induction false} CandidatesMembers(ps: seq<Package>)
    ensures forall p :: p in Candidates(ps) ==> p in ps && p.IsCandidate()
    ensures forall p :: p in ps && p.IsCandidate() ==> p in Candidates(ps)
  {
    if ps != [] {
      var init, last := ps[..|ps| - 1], ps[|ps| - 1];
      CandidatesMembers(init);
      assert forall p :: p in ps <==> p in init || p == last;
    }
  }

  lemma CandidatesStep(ps: seq<Package>, i: nat)
    requires i < |ps|
    ensures Candidates(ps[..i + 1]) == Candidates(ps[..i]) + if ps[i].IsCandidate() then [ps[i]] else []
  {
    assert ps[..i + 1][..i] == ps[..i];
  }

  lemma {:induction false} CandidatesDistinct(ps: seq<Package>)
    requires Distinct(ps)
    ensures Distinct(Candidates(ps))
  {
    if ps != [] {
      var init, last := ps[..|ps| - 1], ps[|ps| - 1];
      CandidatesDistinct(init);
      CandidatesMembers(init);
      assert last !in init;
      assert last !in Candidates(init);
    }
  }

  /** A question can be asked about the package: a latest version, and min and max present together. */
  predicate AskableOn(latest: Option<Version>, min: Option<Version>, max: Option<Version>) {
    latest.Some? && (min.None? <==> max.None?)
  }

  predicate Askable(p: Package)
    reads p`latest, p`min, p`max
  {
    AskableOn(p.latest, p.min, p.max)
  }

  predicate AskableView(v: PkgView) {
    AskableOn(v.latest, v.min, v.max)
  }

  function QuestionAbout(optChar: string, v: PkgView): Question
    requires AskableView(v)
  {
    QuestionFor(optChar, v.name, v.target, v.rangeChar, v.min, v.max, v.latest.value)
  }

  /** `updated.map(pkg => question)`. */
  function Questions(optChar: string, vs: seq<PkgView>): (qs: seq<Question>)
    requires forall v :: v in vs ==> AskableView(v)
    ensures |qs| == |vs|
  {
    seq(|vs|, k requires 0 <= k < |vs| => assert vs[k] in vs; QuestionAbout(optChar, vs[k]))
  }

  /** The questions put to the operator about the candidates `ps`. */
  function Prompt(optChar: string, ps: seq<Package>): (qs: seq<Question>)
    reads ps`versions, ps`latest, ps`min, ps`max
    requires forall p :: p in ps ==> Askable(p)
  {
    ViewsAskable(ps);
    Questions(optChar, Views(ps))
  }

  /** `answers[pkg.name]`, undefined (no value) when the name was not answered. */
  function AnswerFor(answers: map<string, string>, name: string): string {
    if name in answers then answers[name] else ""
  }

  /**
   * The candidacy filter: set `min` and `max` on every package, dropped ones
   * included, and keep those whose latest version exists and differs from `min`.
   */
  method FilterCandidates(lib: Library, deps: seq<Package>) returns (updated: seq<Package>)
    requires Distinct(deps)
    modifies deps`min, deps`max
    ensures AllResolved(lib, deps)
    ensures updated == Candidates(deps)
    ensures forall p :: p in updated ==> p in deps && p.IsCandidate() && Askable(p)
    ensures Distinct(updated)
  {
    updated := [];
    for i := 0 to |deps|
      invariant AllResolved(lib, deps[..i])
      invariant updated == Candidates(deps[..i])
    {
      var p := deps[i];
      assert p !in deps[..i];
      ghost var before := Candidates(deps[..i]);
      Resolve(lib, p);
      assert Candidates(deps[..i]) == before;
      assert AllResolved(lib, deps[..i]);
      CandidatesStep(deps, i);
      if p.IsCandidate() {
        updated := updated + [p];
      }
    }
    assert deps[..|deps|] == deps;
    CandidatesMembers(deps);
    CandidatesDistinct(deps);
  }

  /** `pkg.value = options.choose(pkg, options)` for every candidate. */
  method ApplyChoose(choose: PkgView -> string, updated: seq<Package>)
    requires Distinct(updated)
    modifies updated`value
    ensures forall p :: p in updated ==> p.value == choose(p.View())
  {
    for k := 0 to |updated|
      invariant forall j :: 0 <= j < k ==> updated[j].value == choose(updated[j].View())
    {
      updated[k].value := choose(updated[k].View());
    }
  }

  /** `pkg.value = (options.rangeChar || pkg.rangeChar) + pkg.latest.version` for every candidate. */
  method ApplyForceLatest(optChar: string, updated: seq<Package>)
    requires Distinct(updated)
    requires forall p :: p in updated ==> p.latest.Some?
    modifies updated`value
    ensures forall p :: p in updated ==> p.value == LatestTarget(optChar, p.rangeChar, p.latest.value)
  {
    for k := 0 to |updated|
      invariant forall j :: 0 <= j < k ==>
        updated[j].value == LatestTarget(optChar, updated[j].rangeChar, updated[j].latest.value)
    {
      var p := updated[k];
      p.value := LatestTarget(optChar, p.rangeChar, p.latest.value);
    }
  }

  /** The k-th question is the one about the k-th candidate. */
  lemma QuestionAt(optChar: string, vs: seq<PkgView>, k: nat)
    requires k < |vs| && forall v :: v in vs ==> AskableView(v)
    ensures Questions(optChar, vs)[k] == QuestionAbout(optChar, vs[k])
  {
  }

  /** The candidates' views admit a question each. */
  lemma ViewsAskable(ps: seq<Package>)
    requires forall p :: p in ps ==> Askable(p)
    ensures forall v :: v in Views(ps) ==> AskableView(v)
  {
    forall v | v in Views(ps)
      ensures AskableView(v)
    {
      var i :| 0 <= i < |ps| && Views(ps)[i] == v;
      assert ps[i] in ps;
    }
  }

  /** `updated.map(pkg => ({ ... }))`: one question per candidate, in their order. */
  method BuildQuestions(optChar: string, views: seq<PkgView>) returns (questions: seq<Question>)
    requires forall v :: v in views ==> AskableView(v)
    ensures questions == Questions(optChar, views)
  {
    ghost var all := Questions(optChar, views);
    questions := [];
    for k := 0 to |views|
      invariant questions == all[..k]
    {
      var v := views[k];
      assert v in views;
      var q := BuildQuestion(optChar, v.name, v.target, v.rangeChar, v.min, v.max, v.latest.value);
      QuestionAt(optChar, views, k);
      SliceStep(all, k, q);
      questions := questions + [q];
    }
    assert all[..|views|] == all;
  }

  lemma SliceStep<T>(s: seq<T>, k: nat, x: T)
    requires k < |s| && s[k] == x
    ensures s[..k + 1] == s[..k] + [x]
  {
  }

  /** Ask one question per candidate in a single batch and store each answer as its value. */
  method AskOperator(optChar: string, answer: seq<Question> -> map<string, string>, updated: seq<Package>)
    requires Distinct(updated)
    requires forall p :: p in updated ==> Askable(p)
    modifies updated`value
    ensures forall p :: p in updated ==> Askable(p)
    ensures forall p :: p in updated ==> p.value == AnswerFor(answer(Prompt(optChar, updated)), p.name)
  {
    var views := Views(updated);
    ViewsAskable(updated);
    var questions := BuildQuestions(optChar, views);
    assert Views(updated) == views;
    StoreAnswers(answer(questions), updated);
    assert questions == Prompt(optChar, updated);
  }

  /** `updated.map(pkg => { pkg.value = answers[pkg.name]; return pkg; })` in the prompt callback. */
  method StoreAnswers(answers: map<string, string>, updated: seq<Package>)
    requires Distinct(updated)
    modifies updated`value
    ensures forall p :: p in updated ==> p.value == AnswerFor(answers, p.name)
    ensures Views(updated) == old(Views(updated))
  {
    for k := 0 to |updated|
      invariant forall j :: 0 <= j < k ==> updated[j].value == AnswerFor(answers, updated[j].name)
    {
      updated[k].value := AnswerFor(answers, updated[k].name);
    }
  }

  /**
   * The value of every candidate is what the first policy that applies gives:
   * `options.choose`, else the latest version under `options.forceLatest`,
   * else the operator's answer to the question about it.
   */
  predicate Chosen(opts: Options, op: Operator, updated: seq<Package>)
    reads updated
    requires forall p :: p in updated ==> Askable(p)
  {
    && (opts.choose.Some? ==>
          forall p :: p in updated ==> p.value == opts.choose.value(p.View()))
    && (opts.choose.None? && opts.forceLatest ==>
          forall p :: p in updated ==> p.latest.Some? && p.value == LatestTarget(opts.rangeChar, p.rangeChar, p.latest.value))
    && (opts.choose.None? && !opts.forceLatest ==>
          forall p :: p in updated ==> p.value == AnswerFor(op.answer(Prompt(opts.rangeChar, updated)), p.name))
  }

  /** The first policy that applies: `options.choose`, then `options.forceLatest`, then the operator. */
  method ApplyPolicy(opts: Options, op: Operator, updated: seq<Package>)
    requires Distinct(updated)
    requires forall p :: p in updated ==> p.IsCandidate() && Askable(p)
    modifies updated`value
    ensures forall p :: p in updated ==> p.latest == old(p.latest) && p.min == old(p.min) && p.max == old(p.max)
    ensures forall p :: p in updated ==> p.IsCandidate() && Askable(p)
    ensures forall p :: p in updated ==> p.latest.Some?
    ensures Chosen(opts, op, updated)
  {
    if opts.choose.Some? {
      ApplyChoose(opts.choose.value, updated);
    } else if opts.forceLatest {
      ApplyForceLatest(opts.rangeChar, updated);
    } else {
      AskOperator(opts.rangeChar, op.answer, updated);
    }
  }

  /** `chooseVersions`: the candidacy filter, then the first policy that applies. */
  method ChooseVersions(opts: Options, op: Operator, lib: Library, deps: seq<Package>)
    returns (updated: seq<Package>)
    requires Distinct(deps)
    modifies deps`min, deps`max, deps`value
    ensures AllResolved(lib, deps)
    ensures updated == Candidates(deps)
    ensures forall p :: p in updated ==> p.latest.Some? && p.IsCandidate() && Askable(p)
    ensures forall p :: p in deps ==> p in updated || p.value == old(p.value)
    ensures Chosen(opts, op, updated)
  {
    updated := FilterCandidates(lib, deps);
    assert forall i :: 0 <= i < |updated| ==> updated[i] in deps;
    ApplyPolicy(opts, op, updated);
    assert AllResolved(lib, deps);
  }
}
