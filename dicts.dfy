/**
 * String-keyed records as the program uses them: plain JavaScript objects
 * whose keys are enumerated in insertion order. A key written again keeps
 * its place; a new key goes to the end; a deleted key leaves the others in
 * order.
 */
module Dicts {

  /** Node identifiers are opaque strings. */
  type Id = string

  datatype Option<+T> = None | Some(value: T)

  /** No id is listed twice. */
  ghost predicate Distinct(s: seq<Id>)
  {
    forall i, j | 0 <= i < j < |s| :: s[i] != s[j]
  }

  /** The enumeration order `keys` and the contents `vals` of one object. */
  datatype Dict<V> = Dict(keys: seq<Id>, vals: map<Id, V>)

  /** Every key is listed once, and exactly the keys present are listed. */
  ghost predicate Wf<V>(d: Dict<V>)
  {
    Distinct(d.keys) && d.vals.Keys == set k | k in d.keys
  }

  function Empty<V>(): (r: Dict<V>)
    ensures Wf(r)
  {
    Dict([], map[])
  }

  /** `obj[k] = v`, or `{...obj, [k]: v}`. */
  function Put<V>(d: Dict<V>, k: Id, v: V): (r: Dict<V>)
    ensures Wf(d) ==> Wf(r)
  {
    if k in d.vals then Dict(d.keys, d.vals[k := v])
    else
      Dict(d.keys + [k], d.vals[k := v])
  }

  /** The key order once `k` is gone. */
  function Without(s: seq<Id>, k: Id): (r: seq<Id>)
    ensures forall x :: x in r <==> x in s && x != k
    ensures Distinct(s) ==> Distinct(r)
  {
    if s == [] then []
    else
      var rest := Without(s[1..], k);
      if s[0] == k then rest
      else
        ConsDistinct(s[0], rest);
        [s[0]] + rest
  }

  lemma ConsDistinct(h: Id, t: seq<Id>)
    ensures Distinct([h] + t) <==> h !in t && Distinct(t)
  {
    var s := [h] + t;
    if h !in t && Distinct(t) {
      forall i, j | 0 <= i < j < |s| ensures s[i] != s[j] {
        if i > 0 {
          assert s[i] == t[i - 1] && s[j] == t[j - 1];
        } else {
          assert s[j] == t[j - 1];
        }
      }
    }
    if Distinct(s) {
      forall i, j | 0 <= i < j < |t| ensures t[i] != t[j] {
        assert t[i] == s[i + 1] && t[j] == s[j + 1];
      }
      forall j | 0 <= j < |t| ensures t[j] != h {
        assert t[j] == s[j + 1] && h == s[0];
      }
    }
  }

  /** `a` is listed somewhere before `b`. */
  ghost predicate Before(s: seq<Id>, a: Id, b: Id)
  {
    exists i, j | 0 <= i < j < |s| :: s[i] == a && s[j] == b
  }

  lemma BeforeCons(h: Id, t: seq<Id>, a: Id, b: Id)
    ensures Before([h] + t, a, b) <==> (h == a && b in t) || Before(t, a, b)
  {
    var s := [h] + t;
    if Before(s, a, b) {
      var i, j :| 0 <= i < j < |s| && s[i] == a && s[j] == b;
      assert s[j] == t[j - 1];
      if i > 0 {
        assert s[i] == t[i - 1];
      }
    }
    if h == a && b in t {
      var j :| 0 <= j < |t| && t[j] == b;
      assert s[0] == a && s[j + 1] == b;
    }
    if Before(t, a, b) {
      var i, j :| 0 <= i < j < |t| && t[i] == a && t[j] == b;
      assert s[i + 1] == a && s[j + 1] == b;
    }
  }

  /**
   * Deleting `k` keeps the other keys in their relative order, and puts no
   * key before another that was not before it.
   */
  lemma {:induction false} WithoutOrder(s: seq<Id>, k: Id, a: Id, b: Id)
    ensures Before(Without(s, k), a, b) <==> Before(s, a, b) && a != k && b != k
    decreases |s|
  {
    if s != [] {
      var h, t := s[0], s[1..];
      assert s == [h] + t;
      var rest := Without(t, k);
      WithoutOrder(t, k, a, b);
      BeforeCons(h, t, a, b);
      if h != k {
        BeforeCons(h, rest, a, b);
      }
    }
  }

  /** `delete obj[k]`, or the rest of `const { [k]: _, ...rest } = obj`. */
  function Remove<V>(d: Dict<V>, k: Id): (r: Dict<V>)
    ensures Wf(d) ==> Wf(r)
  {
    Dict(Without(d.keys, k), d.vals - {k})
  }

  /** Looking a key up in a record that may lack it (`obj[k] ?? {}`). */
  function GetOr<V>(d: Dict<V>, k: Id, default: V): (r: V)
  {
    if k in d.vals then d.vals[k] else default
  }
}
