/** The string operations the restore script relies on: Python's substring
    test `sub in s`, `str.rindex`, and splitting an object key at its last '/'. */
module Text {
  import opened Wrappers

  /** `sub` occurs in `s` starting at index `i`. */
  predicate OccursAt(sub: string, s: string, i: int)
  {
    0 <= i && i + |sub| <= |s| && s[i..i + |sub|] == sub
  }

  /** Python's `sub in s` on two strings. */
  predicate Contains(s: string, sub: string)
  {
    exists i | 0 <= i <= |s| - |sub| :: OccursAt(sub, s, i)
  }

  /** Python's `s.rindex(c)`, with the ValueError for a missing character
      turned into `None`. */
  function LastIndexOf(s: string, c: char): (r: Option<nat>)
    ensures r.None? <==> c !in s
    ensures r.Some? ==> r.value < |s| && s[r.value] == c
    ensures r.Some? ==> forall j | r.value < j < |s| :: s[j] != c
  {
    if |s| == 0 then None
    else if s[|s| - 1] == c then Some(|s| - 1)
    else LastIndexOf(s[..|s| - 1], c)
  }

  /** The name of an object: the part of its key after the last '/', or the
      whole key when it has no '/'. */
  function Leaf(key: string): (name: string)
    ensures '/' !in name
    ensures '/' !in key ==> name == key
    ensures '/' in key ==> |name| < |key| && key == key[..|key| - |name| - 1] + "/" + name
  {
    match LastIndexOf(key, '/')
    case None => key
    case Some(k) =>
      var name := key[k + 1..];
      assert forall j | 0 <= j < |name| :: name[j] == key[k + 1 + j];
      assert key == key[..k] + "/" + name;
      name
  }

  /** Splitting a key at its last '/' undoes joining a directory and a name:
      the leaf of `dir + "/" + name` is `name` whenever `name` has no '/'. */
  lemma LeafOfJoin(dir: string, name: string)
    requires '/' !in name
    ensures Leaf(dir + "/" + name) == name
  {
    var key := dir + "/" + name;
    assert key[|dir|] == '/';
    forall j | |dir| < j < |key|
      ensures key[j] != '/'
    {
      assert key[j] == name[j - |dir| - 1];
    }
    var k := LastIndexOf(key, '/');
    assert k.Some? && k.value == |dir|;
    assert key[|dir| + 1..] == name;
  }
}
