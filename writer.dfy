/**
 * The manifest writer, `saveJSON` of tasks/bower-update.js: for every chosen
 * package write its endpoint back into `dependencies` or `devDependencies`,
 * delete its entry from `resolutions` when asked to, and count the packages
 * whose target changed.
 */
module Writer {
  import opened Wrappers
  import opened Json
  import opened Packages

  /** What the writer does for one package: the key, the endpoint text, the section, and whether the target changed. */
  datatype Update = Update(name: string, entry: string, dev: bool, changed: bool)

  function UpdateOf(parser: EndpointParser, p: Package): Update
    reads p`value
  {
    Update(p.name, parser.compose(p.name, p.source, p.Written()), p.dev, p.Written() != p.target)
  }

  /** The updates of `deps`, in order. */
  function Updates(parser: EndpointParser, ps: seq<Package>): (us: seq<Update>)
    reads ps`value
    ensures |us| == |ps| && forall i :: 0 <= i < |ps| ==> us[i] == UpdateOf(parser, ps[i])
  {
    if ps == [] then [] else [UpdateOf(parser, ps[0])] + Updates(parser, ps[1..])
  }

  /** `dest[pkg.name] = endpoint[pkg.name]` for each update of the section, in order. */
  function Merge(section: Obj, us: seq<Update>, dev: bool): Obj
  {
    if us == [] then section
    else
      var rest := Merge(section, us[..|us| - 1], dev);
      var u := us[|us| - 1];
      if u.dev == dev then Put(rest, u.name, u.entry) else rest
  }

  /** `delete resolutions[pkg.name]` for each update. */
  function Clear(resolutions: Obj, us: seq<Update>): Obj
  {
    if us == [] then resolutions else Remove(Clear(resolutions, us[..|us| - 1]), us[|us| - 1].name)
  }

  /** `num`: the number of updates whose target changed. */
  function CountChanged(us: seq<Update>): nat
  {
    if us == [] then 0 else CountChanged(us[..|us| - 1]) + (if us[|us| - 1].changed then 1 else 0)
  }

  /** One more update: the merge, the clearing and the count each take one step. */
  lemma Step(section: Obj, dev: bool, resolutions: Obj, us: seq<Update>, i: nat)
    requires i < |us|
    ensures Merge(section, us[..i + 1], dev) ==
      if us[i].dev == dev then Put(Merge(section, us[..i], dev), us[i].name, us[i].entry) else Merge(section, us[..i], dev)
    ensures Clear(resolutions, us[..i + 1]) == Remove(Clear(resolutions, us[..i]), us[i].name)
    ensures CountChanged(us[..i + 1]) == CountChanged(us[..i]) + if us[i].changed then 1 else 0
  {
    assert us[..i + 1][..i] == us[..i];
  }

  /** The entry the last update of the section for key k writes, if any. */
  function LastEntry(us: seq<Update>, dev: bool, k: string): (r: Option<string>)
    ensures r.None? <==> forall u :: u in us ==> u.dev != dev || u.name != k
    ensures r.Some? ==> exists u :: u in us && u.dev == dev && u.name == k && u.entry == r.value
  {
    if us == [] then None
    else
      var u := us[|us| - 1];
      assert forall w :: w in us <==> w in us[..|us| - 1] || w == u;
      if u.dev == dev && u.name == k then Some(u.entry) else LastEntry(us[..|us| - 1], dev, k)
  }

  /**
   * After the merge a key holds what the last update of the section for it
   * wrote, or what it held before when no update of the section names it.
   */
  lemma {:induction false} MergeGet(section: Obj, us: seq<Update>, dev: bool, k: string)
    ensures Get(Merge(section, us, dev), k) ==
      if LastEntry(us, dev, k).Some? then LastEntry(us, dev, k) else Get(section, k)
  {
    if us != [] {
      var u := us[|us| - 1];
      MergeGet(section, us[..|us| - 1], dev, k);
      if u.dev == dev {
        GetPut(Merge(section, us[..|us| - 1], dev), u.name, u.entry, k);
      }
    }
  }

  /** The merge keeps every key where it stood and appends only keys of the section's updates. */
  lemma {:induction false} MergeKeys(section: Obj, us: seq<Update>, dev: bool)
    ensures Keys(section) <= Keys(Merge(section, us, dev))
    ensures forall k :: k in Keys(Merge(section, us, dev)) ==>
      k in Keys(section) || exists u :: u in us && u.dev == dev && u.name == k
  {
    if us != [] {
      var init, u := us[..|us| - 1], us[|us| - 1];
      MergeKeys(section, init, dev);
      assert forall w :: w in init ==> w in us;
      if u.dev == dev {
        PutKeys(Merge(section, init, dev), u.name, u.entry);
      }
    }
  }

  /** A manifest section that repeats no key still repeats none after the merge. */
  lemma {:induction false} MergeWellFormed(section: Obj, us: seq<Update>, dev: bool)
    requires WellFormed(section)
    ensures WellFormed(Merge(section, us, dev))
  {
    if us != [] {
      var u := us[|us| - 1];
      MergeWellFormed(section, us[..|us| - 1], dev);
      if u.dev == dev {
        PutWellFormed(Merge(section, us[..|us| - 1], dev), u.name, u.entry);
      }
    }
  }

  /** Writing the same updates a second time changes no value. */
  lemma MergeIdempotent(section: Obj, us: seq<Update>, dev: bool, k: string)
    ensures Get(Merge(Merge(section, us, dev), us, dev), k) == Get(Merge(section, us, dev), k)
  {
    MergeGet(Merge(section, us, dev), us, dev, k);
    MergeGet(section, us, dev, k);
  }

  /** After clearing, the resolutions name no updated package and keep every other one. */
  lemma {:induction false} ClearGet(resolutions: Obj, us: seq<Update>, k: string)
    ensures Get(Clear(resolutions, us), k) ==
      if exists u :: u in us && u.name == k then None else Get(resolutions, k)
  {
    if us != [] {
      var init, u := us[..|us| - 1], us[|us| - 1];
      ClearGet(resolutions, init, k);
      GetRemove(Clear(resolutions, init), u.name, k);
      assert forall w :: w in us <==> w in init || w == u;
    }
  }

  lemma {:induction false} ClearWellFormed(resolutions: Obj, us: seq<Update>)
    requires WellFormed(resolutions)
    ensures WellFormed(Clear(resolutions, us))
  {
    if us != [] {
      ClearWellFormed(resolutions, us[..|us| - 1]);
      RemoveWellFormed(Clear(resolutions, us[..|us| - 1]), us[|us| - 1].name);
    }
  }

  /** The count is at most the number of packages, and zero exactly when no target changed. */
  lemma {:induction false} CountChangedBounds(us: seq<Update>)
    ensures CountChanged(us) <= |us|
    ensures CountChanged(us) == 0 <==> forall u :: u in us ==> !u.changed
  {
    if us != [] {
      var init := us[..|us| - 1];
      CountChangedBounds(init);
      assert forall w :: w in us <==> w in init || w == us[|us| - 1];
    }
  }

  /** The count is the number of updates whose target changed. */
  lemma {:induction false} CountChangedCounts(us: seq<Update>)
    ensures CountChanged(us) == |set i | 0 <= i < |us| && us[i].changed|
  {
    if us != [] {
      var n := |us| - 1;
      var init := us[..n];
      CountChangedCounts(init);
      var before := set i | 0 <= i < n && init[i].changed;
      var after := set i | 0 <= i < |us| && us[i].changed;
      assert before == set i | 0 <= i < n && us[i].changed;
      if us[n].changed {
        assert after == before + {n};
      } else {
        assert after == before;
      }
    }
  }

  /**
   * A package whose name no other package of its section repeats ends up
   * under its name in that section with the endpoint of `value || target`.
   */
  lemma SectionWrite(parser: EndpointParser, deps: seq<Package>, i: nat, section: Obj)
    requires i < |deps|
    requires forall j :: 0 <= j < |deps| && j != i ==> deps[j].dev != deps[i].dev || deps[j].name != deps[i].name
    ensures Get(Merge(section, Updates(parser, deps), deps[i].dev), deps[i].name) ==
      Some(parser.compose(deps[i].name, deps[i].source, deps[i].Written()))
  {
    var us, p := Updates(parser, deps), deps[i];
    MergeGet(section, us, p.dev, p.name);
    assert us[i] in us;
    var r := LastEntry(us, p.dev, p.name);
    var u :| u in us && u.dev == p.dev && u.name == p.name && u.entry == r.value;
    var j :| 0 <= j < |us| && us[j] == u;
    assert j == i;
  }

  /**
   * A package left at its declared target is written back as it was declared,
   * when composing the parser's decomposition of an entry gives the entry back.
   */
  lemma UnchangedWritesBack(parser: EndpointParser, p: Package, raw: string)
    requires (p.source, p.target) == parser.decompose(p.name, raw)
    requires parser.compose(p.name, p.source, p.target) == raw
    requires p.value == "" || p.value == p.target
    ensures UpdateOf(parser, p) == Update(p.name, raw, p.dev, false)
  {
    assert p.Written() == p.target;
  }

  /** The loop body of `saveJSON` for one package: its endpoint into its section, its name out of the resolutions. */
  method WriteBack(opts: Options, json: Manifest, u: Update)
    modifies json
    ensures json.dependencies == if u.dev then old(json.dependencies) else Put(old(json.dependencies), u.name, u.entry)
    ensures json.devDependencies == if u.dev then Put(old(json.devDependencies), u.name, u.entry) else old(json.devDependencies)
    ensures json.resolutions == if opts.clearResolutions then Remove(old(json.resolutions), u.name) else old(json.resolutions)
  {
    if u.dev {
      json.devDependencies := Put(json.devDependencies, u.name, u.entry);
    } else {
      json.dependencies := Put(json.dependencies, u.name, u.entry);
    }
    if opts.clearResolutions {
      json.resolutions := Remove(json.resolutions, u.name);
    }
  }

  /**
   * `saveJSON(options, deps)`: the sections and the resolutions become the
   * merge and the clearing of the packages' updates; `num` counts the changed
   * targets.  Writing the file and logging the count are not modelled.
   */
  method SaveJSON(opts: Options, parser: EndpointParser, json: Manifest, deps: seq<Package>)
    returns (num: nat)
    modifies json
    ensures json.dependencies == Merge(old(json.dependencies), Updates(parser, deps), false)
    ensures json.devDependencies == Merge(old(json.devDependencies), Updates(parser, deps), true)
    ensures json.resolutions ==
      if opts.clearResolutions then Clear(old(json.resolutions), Updates(parser, deps))
      else old(json.resolutions)
    ensures num == CountChanged(Updates(parser, deps))
  {
    ghost var us := Updates(parser, deps);
    ghost var section, devSection, resolutions := json.dependencies, json.devDependencies, json.resolutions;
    num := 0;
    for i := 0 to |deps|
      invariant json.dependencies == Merge(section, us[..i], false)
      invariant json.devDependencies == Merge(devSection, us[..i], true)
      invariant json.resolutions == if opts.clearResolutions then Clear(resolutions, us[..i]) else resolutions
      invariant num == CountChanged(us[..i])
    {
      var u := UpdateOf(parser, deps[i]);
      assert u == us[i];
      Step(section, false, resolutions, us, i);
      Step(devSection, true, resolutions, us, i);
      WriteBack(opts, json, u);
      num := num + if u.changed then 1 else 0;
    }
    assert us[..|deps|] == us;
  }
}
