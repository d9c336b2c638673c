/** Key and value pairs as they are printed in a header and stored in a map. */
module HeaderParams {
  import opened Text

  datatype Param = Param(key: string, value: string)

  /** A parameter as a header spells it: its key in any case, its value bare or between quotes. */
  datatype Spelled = Spelled(key: string, value: string, bare: bool)

  /** What is to be read: keys ignore case. */
  function Readings(ps: seq<Spelled>): (r: seq<Param>)
    ensures |r| == |ps|
  {
    if ps == [] then [] else [Param(ToLower(ps[0].key), ps[0].value)] + Readings(ps[1..])
  }

  predicate DistinctKeys(ps: seq<Param>) {
    forall i, j :: 0 <= i < j < |ps| ==> ps[i].key != ps[j].key
  }

  /** The map holds exactly the parameters written, each under its own key. */
  predicate HoldsExactly(m: map<string, string>, ps: seq<Param>) {
    && m.Keys == (set p <- ps :: p.key)
    && (forall i :: 0 <= i < |ps| ==> ps[i].key in m && m[ps[i].key] == ps[i].value)
  }

  function Store(m: map<string, string>, ps: seq<Param>): map<string, string>
    decreases |ps|
  {
    if ps == [] then m else Store(m[ps[0].key := ps[0].value], ps[1..])
  }

  predicate Holds(m: map<string, string>, key: string, value: string) { key in m && m[key] == value }

  lemma {:induction false} StoreKeeps(m: map<string, string>, ps: seq<Param>, key: string)
    requires key in m && forall i :: 0 <= i < |ps| ==> ps[i].key != key
    ensures Holds(Store(m, ps), key, m[key])
    decreases |ps|
  {
    if ps != [] { StoreKeeps(m[ps[0].key := ps[0].value], ps[1..], key); }
  }

  lemma {:induction false} StoreHas(m: map<string, string>, ps: seq<Param>, i: nat)
    requires DistinctKeys(ps) && i < |ps|
    ensures Holds(Store(m, ps), ps[i].key, ps[i].value)
    decreases |ps|
  {
    var m' := m[ps[0].key := ps[0].value];
    if i == 0 {
      StoreKeeps(m', ps[1..], ps[0].key);
    } else {
      StoreHas(m', ps[1..], i - 1);
    }
  }

  lemma {:induction false} StoreKeys(m: map<string, string>, ps: seq<Param>)
    ensures Store(m, ps).Keys == m.Keys + (set p <- ps :: p.key)
    decreases |ps|
  {
    if ps != [] {
      assert ps == [ps[0]] + ps[1..];
      StoreKeys(m[ps[0].key := ps[0].value], ps[1..]);
    }
  }

  lemma {:induction false} StoreHoldsExactly(ps: seq<Param>)
    requires DistinctKeys(ps)
    ensures HoldsExactly(Store(map[], ps), ps)
  {
    StoreKeys(map[], ps);
    forall i | 0 <= i < |ps| ensures Holds(Store(map[], ps), ps[i].key, ps[i].value) {
      StoreHas(map[], ps, i);
    }
  }

  // ---------- looking up what was written ----------

  /** The value under key, "" when there is none. */
  function Lookup(m: map<string, string>, key: string): string { if key in m then m[key] else "" }

  /** The value written for key, "" when there is none. */
  function ValueOf(attrs: seq<Param>, key: string): string {
    if attrs == [] then "" else if attrs[0].key == key then attrs[0].value else ValueOf(attrs[1..], key)
  }

  lemma {:induction false} ValueOfIsWritten(attrs: seq<Param>, key: string)
    ensures || (exists i :: 0 <= i < |attrs| && attrs[i].key == key && attrs[i].value == ValueOf(attrs, key))
            || (ValueOf(attrs, key) == "" && forall i :: 0 <= i < |attrs| ==> attrs[i].key != key)
    decreases |attrs|
  {
    if attrs != [] && attrs[0].key != key {
      ValueOfIsWritten(attrs[1..], key);
      if i :| 0 <= i < |attrs| - 1 && attrs[1..][i].key == key && attrs[1..][i].value == ValueOf(attrs, key) {
        assert attrs[i + 1] == attrs[1..][i];
      }
    }
  }

  lemma {:induction false} ReadsWrittenValue(m: map<string, string>, attrs: seq<Param>, key: string)
    requires HoldsExactly(m, attrs)
    ensures Lookup(m, key) == ValueOf(attrs, key)
  {
    ValueOfIsWritten(attrs, key);
    assert key in m <==> key in (set p <- attrs :: p.key);
  }
}
