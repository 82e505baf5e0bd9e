/** Writing into the middle of a buffer. */
module Memory {

  /** s with t written at off. */
  function Patch<T>(s: seq<T>, off: nat, t: seq<T>): (r: seq<T>)
    requires off + |t| <= |s|
    ensures |r| == |s|
  {
    s[..off] + t + s[off + |t|..]
  }

  lemma Patched<T>(s: seq<T>, off: nat, t: seq<T>)
    requires off + |t| <= |s|
    ensures Patch(s, off, t)[..off] == s[..off] && Patch(s, off, t)[off..off + |t|] == t
    ensures Patch(s, off, t)[off + |t|..] == s[off + |t|..]
    ensures forall i :: off + |t| <= i < |s| ==> Patch(s, off, t)[i] == s[i]
  {
  }

  lemma PatchTwice<T>(s: seq<T>, off: nat, t: seq<T>, u: seq<T>)
    requires off + |t| + |u| <= |s|
    ensures Patch(Patch(s, off, t), off + |t|, u) == Patch(s, off, t + u)
  {
  }

  lemma PatchNothing<T>(s: seq<T>, off: nat)
    requires off <= |s|
    ensures Patch(s, off, []) == s
  {
  }

  lemma PatchSame<T>(s: seq<T>, off: nat, n: nat)
    requires off + n <= |s|
    ensures Patch(s, off, s[off..off + n]) == s
  {
  }

  lemma PatchKeeps<T>(s: seq<T>, off: nat, t: seq<T>, i: nat)
    requires i <= off && off + |t| <= |s|
    ensures Patch(s, off, t)[i..off + |t|] == s[i..off] + t
  {
  }

  /** memcpy(z + off, t, |t|), from a source that z does not overlap. */
  method Copy<T>(z: array<T>, off: nat, t: seq<T>)
    requires off + |t| <= z.Length
    modifies z
    ensures z[..] == Patch(old(z[..]), off, t)
    ensures forall h :: 0 <= h < z.Length && !(off <= h < off + |t|) ==> z[h] == old(z[h])
  {
    for i := 0 to |t|
      invariant forall h :: 0 <= h < z.Length && !(off <= h < off + i) ==> z[h] == old(z[h])
      invariant forall h :: off <= h < off + i ==> z[h] == t[h - off]
    {
      z[off + i] := t[i];
    }
  }
}
