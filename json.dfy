/**
 * A JSON object of string values (`dependencies`, `devDependencies`,
 * `resolutions` of bower.json) as the ordered list of its members, with the
 * meaning JavaScript gives to `o[k]`, `o[k] = v` and `delete o[k]`: assigning
 * an existing key replaces its value where it stands, assigning a new key
 * appends it, and deleting removes it.
 */
module Json {
  import opened Wrappers

  type Obj = seq<(string, string)>

  function Keys(o: Obj): (ks: seq<string>)
    ensures |ks| == |o| && forall i :: 0 <= i < |o| ==> ks[i] == o[i].0
  {
    if o == [] then [] else [o[0].0] + Keys(o[1..])
  }

  /** A parsed object never repeats a key. */
  predicate WellFormed(o: Obj) {
    forall i, j :: 0 <= i < j < |o| ==> o[i].0 != o[j].0
  }

  /** `o[k]`, undefined when absent. */
  function Get(o: Obj, k: string): (r: Option<string>)
    ensures r.None? <==> k !in Keys(o)
    ensures r.Some? ==> (k, r.value) in o
  {
    if o == [] then None
    else if o[0].0 == k then Some(o[0].1)
    else Get(o[1..], k)
  }

  /** `o[k] = v`. */
  function Put(o: Obj, k: string, v: string): (r: Obj)
  {
    if o == [] then [(k, v)]
    else if o[0].0 == k then [(k, v)] + o[1..]
    else [o[0]] + Put(o[1..], k, v)
  }

  /** `delete o[k]`. */
  function Remove(o: Obj, k: string): (r: Obj)
  {
    if o == [] then []
    else if o[0].0 == k then Remove(o[1..], k)
    else [o[0]] + Remove(o[1..], k)
  }

  lemma {:induction false} GetPut(o: Obj, k: string, v: string, k': string)
    ensures Get(Put(o, k, v), k') == if k' == k then Some(v) else Get(o, k')
  {
    if o != [] && o[0].0 != k {
      GetPut(o[1..], k, v, k');
    }
  }

  /** Assigning a present key keeps the key order; a new key goes last. */
  lemma {:induction false} PutKeys(o: Obj, k: string, v: string)
    ensures Keys(Put(o, k, v)) == if k in Keys(o) then Keys(o) else Keys(o) + [k]
  {
    if o != [] && o[0].0 != k {
      PutKeys(o[1..], k, v);
      assert Keys(o) == [o[0].0] + Keys(o[1..]);
    }
  }

  lemma {:induction false} PutWellFormed(o: Obj, k: string, v: string)
    requires WellFormed(o)
    ensures WellFormed(Put(o, k, v))
  {
    PutKeys(o, k, v);
    var r := Put(o, k, v);
    forall i, j | 0 <= i < j < |r| ensures r[i].0 != r[j].0 {
      assert Keys(r)[i] == r[i].0 && Keys(r)[j] == r[j].0;
      if k !in Keys(o) && j == |o| {
        assert Keys(o)[i] == o[i].0;
      } else {
        assert Keys(o)[i] == o[i].0 && Keys(o)[j] == o[j].0;
      }
    }
  }

  lemma {:induction false} GetRemove(o: Obj, k: string, k': string)
    ensures Get(Remove(o, k), k') == if k' == k then None else Get(o, k')
  {
    if o != [] {
      GetRemove(o[1..], k, k');
    }
  }

  /** Deleting keeps exactly the members under other keys. */
  lemma {:induction false} RemoveKeepsOthers(o: Obj, k: string)
    ensures forall m :: m in Remove(o, k) <==> m in o && m.0 != k
  {
    if o != [] {
      RemoveKeepsOthers(o[1..], k);
      assert o == [o[0]] + o[1..];
    }
  }

  lemma {:induction false} RemoveWellFormed(o: Obj, k: string)
    requires WellFormed(o)
    ensures WellFormed(Remove(o, k))
  {
    if o != [] {
      RemoveWellFormed(o[1..], k);
      RemoveKeepsOthers(o[1..], k);
      var t := Remove(o[1..], k);
      if o[0].0 != k {
        forall j | 0 <= j < |t| ensures o[0].0 != t[j].0 {
          assert t[j] in o[1..];
        }
      }
    }
  }

  /** The parsed bower.json, whose three maps the writer updates in place. */
  class Manifest {
    var dependencies: Obj
    var devDependencies: Obj
    var resolutions: Obj   // empty when the manifest has none

    constructor (dependencies: Obj, devDependencies: Obj, resolutions: Obj)
      ensures this.dependencies == dependencies
      ensures this.devDependencies == devDependencies
      ensures this.resolutions == resolutions
    {
      this.dependencies := dependencies;
      this.devDependencies := devDependencies;
      this.resolutions := resolutions;
    }
  }
}
