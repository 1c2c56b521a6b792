/** Dictionaries keyed by session name, as the source's `sessions` dict:
    the keys are a sequence of distinct names whose positions stand for the
    session objects they map to. */
module Keys {
  import opened Optional

  /** `self.sessions[name]`: the position of the session called `name`, or
      None where the dictionary raises KeyError. */
  function Lookup(names: seq<string>, name: string): (r: Option<nat>)
    ensures r.None? <==> name !in names
    ensures r.Some? ==> r.value < |names| && names[r.value] == name
                        && forall i :: 0 <= i < r.value ==> names[i] != name
  {
    if names == [] then None
    else if names[0] == name then Some(0)
    else
      match Lookup(names[1..], name)
      case None => None
      case Some(i) => Some(i + 1)
  }

  /** Among distinct names, `Lookup` finds a name exactly at its own position. */
  lemma LookupDistinct(names: seq<string>, n: string, j: nat)
    requires forall a, b :: 0 <= a < b < |names| ==> names[a] != names[b]
    requires j < |names|
    ensures Lookup(names, n) == Some(j) <==> n == names[j]
  {
    if n == names[j] {
      var v := Lookup(names, n).value;
      assert !(v < j) && !(j < v);
    }
  }
}
