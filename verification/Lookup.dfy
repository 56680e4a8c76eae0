/** The circular search by which `flat::get` finds a field. */
module Lookup {
  import opened Common
  import opened Bytes
  import opened Record

  /** Index of the first field called `name` at `i` or later, or |fs|. */
  function FirstFrom(fs: seq<Field>, name: seq<Byte>, i: nat): (k: nat)
    requires i <= |fs|
    ensures i <= k <= |fs|
    ensures forall j :: i <= j < k ==> fs[j].name != name
    ensures k < |fs| ==> fs[k].name == name
    decreases |fs| - i
  {
    if i == |fs| || fs[i].name == name then i else FirstFrom(fs, name, i + 1)
  }

  predicate Has(fs: seq<Field>, name: seq<Byte>) {
    exists k :: 0 <= k < |fs| && fs[k].name == name
  }

  /** From the cursor to the end, then from the start to the cursor. */
  function Search(fs: seq<Field>, cur: nat, name: seq<Byte>): Option<nat>
    requires cur <= |fs|
  {
    var k := FirstFrom(fs, name, cur);
    if k < |fs| then Some(k)
    else
      var k' := FirstFrom(fs, name, 0);
      if k' < cur then Some(k') else None
  }

  /** The cursor after a search: behind the hit, or where it was. */
  function CursorAfter(cur: nat, hit: Option<nat>): nat {
    if hit.Some? then hit.value + 1 else cur
  }

  predicate Distinct(fs: seq<Field>) {
    forall i, j :: 0 <= i < j < |fs| ==> fs[i].name != fs[j].name
  }

  /** A sequence of reads: the hits, in order. */
  function Reads(fs: seq<Field>, cur: nat, names: seq<seq<Byte>>): (hits: seq<Option<nat>>)
    requires cur <= |fs|
    ensures |hits| == |names|
    decreases |names|
  {
    if names == [] then []
    else
      var hit := Search(fs, cur, names[0]);
      [hit] + Reads(fs, CursorAfter(cur, hit), names[1..])
  }

  /** A field is found exactly when there is one, and the hit is the next one in circular order. */
  lemma SearchComplete(fs: seq<Field>, cur: nat, name: seq<Byte>)
    requires cur <= |fs|
    ensures Search(fs, cur, name).Some? <==> Has(fs, name)
    ensures Search(fs, cur, name).Some? ==>
      var k := Search(fs, cur, name).value;
      && k < |fs| && fs[k].name == name
      && (forall j :: cur <= j < |fs| && (k < cur || j < k) ==> fs[j].name != name)
      && (k < cur ==> forall j :: 0 <= j < k ==> fs[j].name != name)
  {
    if Has(fs, name) {
      var k :| 0 <= k < |fs| && fs[k].name == name;
      assert k < cur ==> FirstFrom(fs, name, 0) <= k;
    }
  }

  /** With distinct names, reads in any order from any cursor behave like lookups in a map. */
  lemma {:induction false} ReadsAreLookups(fs: seq<Field>, cur: nat, names: seq<seq<Byte>>, i: nat)
    requires cur <= |fs| && Distinct(fs) && i < |names|
    ensures match Reads(fs, cur, names)[i]
            case Some(k) => k < |fs| && fs[k].name == names[i]
            case None => !Has(fs, names[i])
    decreases i
  {
    SearchComplete(fs, cur, names[0]);
    if i > 0 {
      ReadsAreLookups(fs, CursorAfter(cur, Search(fs, cur, names[0])), names[1..], i - 1);
    }
  }

  /** Reading the names in the order they were written returns each field in turn, repeated names or not. */
  lemma {:induction false} ReadsInWriteOrder(fs: seq<Field>, cur: nat)
    requires cur <= |fs|
    ensures var names := seq(|fs| - cur, i requires 0 <= i < |fs| - cur => fs[cur + i].name);
            Reads(fs, cur, names) == seq(|fs| - cur, i requires 0 <= i < |fs| - cur => Some(cur + i))
    decreases |fs| - cur
  {
    if cur < |fs| {
      var names := seq(|fs| - cur, i requires 0 <= i < |fs| - cur => fs[cur + i].name);
      assert FirstFrom(fs, names[0], cur) == cur;
      ReadsInWriteOrder(fs, cur + 1);
      assert names[1..] == seq(|fs| - (cur + 1), i requires 0 <= i < |fs| - (cur + 1) => fs[cur + 1 + i].name);
    }
  }
}
