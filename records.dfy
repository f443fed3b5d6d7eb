/** The information record and the other string-to-string dictionaries of the
    pipeline. A Python `dict` keeps its keys distinct and iterates them in
    insertion order, so it is modelled as a sequence of entries with distinct
    keys; `d[k]`, `k in d` and `d[k] = v` become IndexOf, Lookup and Put. */
module Records {
  import opened Wrappers

  datatype Entry = Entry(key: string, value: string)

  predicate DistinctKeys(r: seq<Entry>) {
    forall i, j :: 0 <= i < j < |r| ==> r[i].key != r[j].key
  }

  /** A dictionary: entries in iteration order, no key twice. */
  type Dict = r: seq<Entry> | DistinctKeys(r) witness []

  /** The keys in iteration order (`list(d.keys())`). */
  function Keys(r: seq<Entry>): seq<string> {
    seq(|r|, i requires 0 <= i < |r| => r[i].key)
  }

  /** The position of the first entry whose key is `k`, if any. */
  function IndexOf(r: seq<Entry>, k: string): (o: Option<nat>)
    ensures o.None? <==> forall i :: 0 <= i < |r| ==> r[i].key != k
    ensures o.Some? ==> o.value < |r| && r[o.value].key == k
    ensures o.Some? ==> forall j :: 0 <= j < o.value ==> r[j].key != k
  {
    if r == [] then None
    else if r[0].key == k then Some(0)
    else
      match IndexOf(r[1..], k)
      case None => None
      case Some(i) => Some(i + 1)
  }

  /** `d[k]` when `k in d`, and None when it is not. */
  function Lookup(r: seq<Entry>, k: string): (v: Option<string>)
    ensures v.None? <==> k !in Keys(r)
    ensures v.Some? ==> exists i :: 0 <= i < |r| && r[i] == Entry(k, v.value)
  {
    match IndexOf(r, k)
    case None => None
    case Some(i) =>
      assert Keys(r)[i] == k;
      Some(r[i].value)
  }

  /** `d[k] = v`: an existing key keeps its position and takes the new
      value; a new key is appended at the end; every other key reads as
      before. */
  function Put(r: Dict, k: string, v: string): (r': Dict)
    ensures Lookup(r', k) == Some(v)
    ensures forall k' :: k' != k ==> Lookup(r', k') == Lookup(r, k')
    ensures k in Keys(r) ==> Keys(r') == Keys(r)
    ensures k !in Keys(r) ==> Keys(r') == Keys(r) + [k]
  {
    match IndexOf(r, k)
    case Some(i) =>
      var r' := r[i := Entry(k, v)];
      assert Keys(r)[i] == k;
      assert Keys(r') == Keys(r);
      r'
    case None =>
      var r' := r + [Entry(k, v)];
      assert Keys(r') == Keys(r) + [k];
      r'
  }

  /** In a dictionary the entry at position `i` is the one found by its key. */
  lemma LookupAt(r: Dict, i: nat)
    requires i < |r|
    ensures IndexOf(r, r[i].key) == Some(i)
    ensures Lookup(r, r[i].key) == Some(r[i].value)
  {
  }

  /** Assigning to a key that is already present replaces that entry in place. */
  lemma PutExisting(r: Dict, i: nat, v: string)
    requires i < |r|
    ensures Put(r, r[i].key, v) == r[i := Entry(r[i].key, v)]
  {
  }

  /** Assigning to a new key appends an entry. */
  lemma PutFresh(r: Dict, k: string, v: string)
    requires k !in Keys(r)
    ensures Put(r, k, v) == r + [Entry(k, v)]
  {
  }
}
