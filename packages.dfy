/**
 * The package set loader: `getPackages` (one descriptor per declared
 * dependency, with its range and range character) and the selection step of
 * `prepareDeps` (filter function, then pick-all, then the operator's checkbox).
 */
module Packages {
  import opened Wrappers
  import opened Semver
  import opened Json
  import opened Choices
  import Logging

  /** What a caller-supplied `filter` or `choose` function gets to see of a package. */
  datatype PkgView = PkgView(
    name: string, source: string, target: string,
    range: Option<string>, rangeChar: string, dev: bool,
    versions: seq<Version>, latest: Option<Version>,
    min: Option<Version>, max: Option<Version>)

  /**
   * The task options.  `filter` and `choose` are present exactly when the
   * source's `typeof ... === 'function'` holds; `rangeChar` is falsy when "".
   */
  datatype Options = Options(
    devDependencies: bool,
    clearResolutions: bool,
    pickAll: bool,
    forceLatest: bool,
    rangeChar: string,
    filter: Option<PkgView -> bool>,
    choose: Option<PkgView -> string>,
    logBowerInfo: Logging.Criteria)

  /** The defaults the task starts from. */
  const Defaults: Options :=
    Options(true, true, false, false, "", None, None, Logging.Named("warn"))

  /**
   * The operator at the terminal: which entries of the package checkbox stay
   * checked (positions in the list of packages shown), and the answers to a
   * batch of version questions, keyed by question name.
   */
  datatype Operator = Operator(
    check: seq<PkgView> -> set<nat>,
    answer: seq<Question> -> map<string, string>)

  /** bower-endpoint-parser, taken as given. */
  datatype EndpointParser = EndpointParser(
    decompose: (string, string) -> (string, string),    // json2decomposed(name, value): (source, target)
    compose: (string, string, string) -> string)        // decomposed2json({name, source, target})[name]

  /** `target.charAt(0)`. */
  function FirstChar(target: string): (r: string)
    ensures r == "" <==> target == ""
    ensures r != "" ==> r == [target[0]]
  {
    if target == "" then "" else target[..1]
  }

  /** JavaScript truthiness of a string that may be null: present and non-empty. */
  predicate Truthy(s: Option<string>) {
    s.Some? && s.value != ""
  }

  /** The range character derived from a declared target. */
  function RangeChar(lib: Library, target: string): (r: string)
    ensures |r| <= 1 && r <= target
    ensures r == "" <==>
      !Truthy(lib.validRange(target)) || target == "*" || lib.valid(target) == Some(target) || target == ""
  {
    if Truthy(lib.validRange(target)) && target != "*" && lib.valid(target) != Some(target)
    then FirstChar(target)
    else ""
  }

  /** A package descriptor; the selector fills in `min`, `max` and `value` in place. */
  class Package {
    const name: string
    const source: string
    const target: string
    const range: Option<string>
    const rangeChar: string
    const dev: bool
    var versions: seq<Version>
    var latest: Option<Version>   // latest.version
    var min: Option<Version>
    var max: Option<Version>
    var value: string             // the chosen target; "" while none is chosen

    /** One step of `getPackages`: decompose the entry, derive range and range character. */
    constructor (lib: Library, parser: EndpointParser, key: string, raw: string, isDev: bool)
      ensures Declares(lib, parser, (key, raw), isDev)
    {
      var (src, tgt) := parser.decompose(key, raw);
      name, source, target := key, src, tgt;
      range := lib.validRange(tgt);
      rangeChar := RangeChar(lib, tgt);
      dev := isDev;
      versions, latest, min, max, value := [], None, None, None, "";
    }

    /** The package was created from this manifest entry and nothing has been attached yet. */
    predicate Declares(lib: Library, parser: EndpointParser, entry: (string, string), isDev: bool)
      reads this
    {
      && name == entry.0
      && (source, target) == parser.decompose(entry.0, entry.1)
      && range == lib.validRange(target)
      && rangeChar == RangeChar(lib, target)
      && dev == isDev
      && versions == [] && latest == None && min == None && max == None && value == ""
    }

    function View(): PkgView
      reads this`versions, this`latest, this`min, this`max
    {
      PkgView(name, source, target, range, rangeChar, dev, versions, latest, min, max)
    }

    /** What `getInfo` attaches: `entry.versions || []` and `(entry.latest || {}).version`. */
    method AttachInfo(fetched: Option<seq<Version>>, latestVersion: Option<Version>)
      modifies this`versions, this`latest
      ensures versions == (if fetched.Some? then fetched.value else [])
      ensures latest == latestVersion
    {
      versions := if fetched.Some? then fetched.value else [];
      latest := latestVersion;
    }

    /** The candidacy test: a latest version exists and differs from the minimum. */
    predicate IsCandidate()
      reads this`latest, this`min
    {
      latest.Some? && min != latest
    }

    /** `pkg.value || pkg.target`: what the writer puts back. */
    function Written(): string
      reads this`value
    {
      if value == "" then target else value
    }
  }

  predicate Distinct(ps: seq<Package>) {
    forall i, j :: 0 <= i < j < |ps| ==> ps[i] != ps[j]
  }

  function Views(ps: seq<Package>): (r: seq<PkgView>)
    reads ps`versions, ps`latest, ps`min, ps`max
    ensures |r| == |ps| && forall i :: 0 <= i < |ps| ==> r[i] == ps[i].View()
  {
    if ps == [] then [] else [ps[0].View()] + Views(ps[1..])
  }

  /** `getPackages(dependencies, isDev)`: one fresh descriptor per entry, in key order. */
  method GetPackages(lib: Library, parser: EndpointParser, section: Obj, isDev: bool)
    returns (pkgs: seq<Package>)
    ensures |pkgs| == |section|
    ensures forall i :: 0 <= i < |section| ==> pkgs[i].Declares(lib, parser, section[i], isDev)
    ensures forall p :: p in pkgs ==> fresh(p)
    ensures Distinct(pkgs)
  {
    pkgs := [];
    for i := 0 to |section|
      invariant |pkgs| == i
      invariant forall j :: 0 <= j < i ==> pkgs[j].Declares(lib, parser, section[j], isDev)
      invariant forall p :: p in pkgs ==> fresh(p)
      invariant Distinct(pkgs)
    {
      var p := new Package(lib, parser, section[i].0, section[i].1, isDev);
      pkgs := pkgs + [p];
    }
  }

  /** The positions below n that keep accepts, in increasing order. */
  function Positions(n: nat, keep: nat -> bool): (r: seq<nat>)
    ensures |r| <= n
  {
    if n == 0 then [] else Positions(n - 1, keep) + (if keep(n - 1) then [n - 1] else [])
  }

  /** Exactly the positions below n that keep accepts, and increasing. */
  lemma {:induction false} PositionsMembers(n: nat, keep: nat -> bool)
    ensures forall k :: 0 <= k < |Positions(n, keep)| ==> Positions(n, keep)[k] < n
    ensures forall i: nat :: i in Positions(n, keep) <==> i < n && keep(i)
    ensures forall a, b :: 0 <= a < b < |Positions(n, keep)| ==> Positions(n, keep)[a] < Positions(n, keep)[b]
  {
    if n > 0 {
      var prev := Positions(n - 1, keep);
      PositionsMembers(n - 1, keep);
      assert Positions(n, keep) == prev + (if keep(n - 1) then [n - 1] else []);
    }
  }

  /**
   * The positions of the listed packages that `prepareDeps` passes on: those the
   * `filter` function accepts when there is one, else all of them under
   * `pickAll`, else those the operator leaves checked.
   */
  function Selected(opts: Options, op: Operator, views: seq<PkgView>): (r: seq<nat>)
    ensures forall k :: 0 <= k < |r| ==> r[k] < |views|
    ensures forall a, b :: 0 <= a < b < |r| ==> r[a] < r[b]
  {
    var keep := Keep(opts, op, views);
    PositionsMembers(|views|, keep);
    Positions(|views|, keep)
  }

  /** Whether `prepareDeps` passes the i-th listed package on. */
  function Keep(opts: Options, op: Operator, views: seq<PkgView>): nat -> bool
  {
    if opts.filter.Some? then
      (i: nat) => i < |views| && opts.filter.value(views[i])
    else if opts.pickAll then
      (i: nat) => true
    else
      var checked := op.check(views);
      (i: nat) => i in checked
  }

  function Pick(ps: seq<Package>, idx: seq<nat>): (r: seq<Package>)
    requires forall k :: 0 <= k < |idx| ==> idx[k] < |ps|
    ensures |r| == |idx| && forall k :: 0 <= k < |idx| ==> r[k] == ps[idx[k]]
  {
    seq(|idx|, k requires 0 <= k < |idx| => ps[idx[k]])
  }

  /** A filter function decides alone: exactly the packages it accepts, whatever pickAll says. */
  lemma FilterDecides(opts: Options, op: Operator, views: seq<PkgView>, i: nat)
    requires opts.filter.Some?
    ensures i in Selected(opts, op, views) <==> i < |views| && opts.filter.value(views[i])
    ensures Selected(opts, op, views) == Selected(opts.(pickAll := !opts.pickAll), op, views)
  {
    PositionsMembers(|views|, Keep(opts, op, views));
  }

  lemma {:induction false} PositionsOfAll(n: nat, keep: nat -> bool)
    requires forall i: nat :: i < n ==> keep(i)
    ensures |Positions(n, keep)| == n && forall k :: 0 <= k < n ==> Positions(n, keep)[k] == k
  {
    if n > 0 {
      var prev := Positions(n - 1, keep);
      PositionsOfAll(n - 1, keep);
      assert keep(n - 1);
      assert Positions(n, keep) == prev + [n - 1];
    }
  }

  /** Without a filter, pickAll passes every listed package on, in order. */
  lemma PickAllKeepsAll(opts: Options, op: Operator, views: seq<PkgView>)
    requires opts.filter.None? && opts.pickAll
    ensures |Selected(opts, op, views)| == |views|
    ensures forall k :: 0 <= k < |views| ==> Selected(opts, op, views)[k] == k
  {
    PositionsOfAll(|views|, Keep(opts, op, views));
  }

  /** Otherwise the operator decides: exactly the entries left checked. */
  lemma CheckboxDecides(opts: Options, op: Operator, views: seq<PkgView>, i: nat)
    requires opts.filter.None? && !opts.pickAll
    ensures i in Selected(opts, op, views) <==> i < |views| && i in op.check(views)
  {
    PositionsMembers(|views|, Keep(opts, op, views));
  }

  /**
   * `listed` is what `getPackages` makes of the dependencies followed, when
   * they are included, by the dev dependencies: one distinct descriptor per
   * entry, in key order, the dev ones last.
   */
  predicate Lists(opts: Options, lib: Library, parser: EndpointParser, json: Manifest, listed: seq<Package>)
    reads json, listed
  {
    && |listed| == |json.dependencies| + (if opts.devDependencies then |json.devDependencies| else 0)
    && (forall i :: 0 <= i < |json.dependencies| ==>
          listed[i].Declares(lib, parser, json.dependencies[i], false))
    && (opts.devDependencies ==> forall i :: 0 <= i < |json.devDependencies| ==>
          listed[|json.dependencies| + i].Declares(lib, parser, json.devDependencies[i], true))
    && Distinct(listed)
    && forall k :: 0 <= k < |listed| ==> (listed[k].dev <==> k >= |json.dependencies|)
  }

  /** The listing half of `prepareDeps`. */
  method ListPackages(opts: Options, lib: Library, parser: EndpointParser, json: Manifest)
    returns (listed: seq<Package>)
    ensures Lists(opts, lib, parser, json, listed)
    ensures forall p :: p in listed ==> fresh(p)
  {
    var deps := GetPackages(lib, parser, json.dependencies, false);
    var devDeps := [];
    if opts.devDependencies {
      devDeps := GetPackages(lib, parser, json.devDependencies, true);
    }
    listed := deps + devDeps;
    DistinctConcat(deps, devDeps);
    DevSplit(deps, devDeps);
  }

  /**
   * `prepareDeps`: list the dependencies, then the dev dependencies when they
   * are included, and keep the selected ones.
   */
  method PrepareDeps(opts: Options, op: Operator, lib: Library, parser: EndpointParser, json: Manifest)
    returns (selected: seq<Package>, ghost listed: seq<Package>)
    ensures Lists(opts, lib, parser, json, listed)
    ensures forall p :: p in listed ==> fresh(p)
    ensures forall k :: 0 <= k < |Selected(opts, op, Views(listed))| ==>
      Selected(opts, op, Views(listed))[k] < |listed|
    ensures selected == Pick(listed, Selected(opts, op, Views(listed)))
    ensures Distinct(selected)
    ensures !opts.devDependencies ==> forall p :: p in selected ==> !p.dev
    ensures forall i, j :: 0 <= i < j < |selected| && selected[i].dev ==> selected[j].dev
  {
    var all := ListPackages(opts, lib, parser, json);
    listed := all;
    var idx := Selected(opts, op, Views(all));
    selected := Pick(all, idx);
    PickKeepsOrder(all, idx, |json.dependencies|);
    if opts.filter.None? && opts.pickAll {
      PickAllKeepsAll(opts, op, Views(all));
      assert selected == all;
    }
  }

  lemma DistinctConcat(a: seq<Package>, b: seq<Package>)
    requires Distinct(a) && Distinct(b)
    requires forall p :: p in a ==> !p.dev
    requires forall p :: p in b ==> p.dev
    ensures Distinct(a + b)
  {
    forall i, j | 0 <= i < j < |a + b| ensures (a + b)[i] != (a + b)[j] {
      if i < |a| <= j {
        assert (a + b)[i] in a && (a + b)[j] in b;
      }
    }
  }

  lemma DevSplit(a: seq<Package>, b: seq<Package>)
    requires forall p :: p in a ==> !p.dev
    requires forall p :: p in b ==> p.dev
    ensures forall k :: 0 <= k < |a + b| ==> ((a + b)[k].dev <==> k >= |a|)
  {
    forall k | 0 <= k < |a + b| ensures (a + b)[k].dev <==> k >= |a| {
      if k < |a| { assert (a + b)[k] in a; } else { assert (a + b)[k] in b; }
    }
  }

  /** Keeping increasing positions of a list keeps it duplicate-free and keeps its dev packages last. */
  lemma PickKeepsOrder(ps: seq<Package>, idx: seq<nat>, split: nat)
    requires Distinct(ps)
    requires forall k :: 0 <= k < |idx| ==> idx[k] < |ps|
    requires forall a, b :: 0 <= a < b < |idx| ==> idx[a] < idx[b]
    requires forall k :: 0 <= k < |ps| ==> (ps[k].dev <==> k >= split)
    ensures Distinct(Pick(ps, idx))
    ensures forall i, j :: 0 <= i < j < |idx| && Pick(ps, idx)[i].dev ==> Pick(ps, idx)[j].dev
    ensures split == |ps| ==> forall p :: p in Pick(ps, idx) ==> !p.dev
  {
    var r := Pick(ps, idx);
    if split == |ps| {
      forall p | p in r ensures !p.dev {
        var k :| 0 <= k < |r| && r[k] == p;
      }
    }
  }
}
