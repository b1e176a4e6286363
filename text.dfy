/** String helpers with the exact meaning of the Python built-ins the
    site builder uses: `str.endswith`, the slice `s[:-k]`, and
    `os.path.join` on POSIX with two arguments. */
module Text {

  /** `s.endswith(suffix)` */
  predicate EndsWith(s: string, suffix: string) {
    |suffix| <= |s| && s[|s| - |suffix|..] == suffix
  }

  /** `s.startswith(prefix)` */
  predicate StartsWith(s: string, prefix: string) {
    |prefix| <= |s| && s[..|prefix|] == prefix
  }

  /** Concatenation regroups freely. */
  lemma Associative<T>(x: seq<T>, y: seq<T>, z: seq<T>)
    ensures x + y + z == x + (y + z)
  {
  }

  lemma EndsWithAppend(a: string, b: string)
    ensures EndsWith(a + b, b)
  {
    assert (a + b)[|a + b| - |b|..] == b;
  }

  lemma StartsWithAppend(a: string, b: string)
    ensures StartsWith(a + b, a)
  {
    assert (a + b)[..|a|] == a;
  }

  /** A suffix of the end of a string is a suffix of anything written before
      that string too. */
  lemma EndsWithLonger(a: string, b: string, suffix: string)
    requires EndsWith(b, suffix)
    ensures EndsWith(a + b, suffix)
  {
    assert (a + b)[|a + b| - |suffix|..] == b[|b| - |suffix|..];
  }

  /** A string cannot end with both ".md" and ".html". */
  lemma SuffixesExclusive(s: string)
    ensures !(EndsWith(s, ".md") && EndsWith(s, ".html"))
  {
    assert EndsWith(s, ".md") ==> s[|s| - 1] == 'd';
    assert EndsWith(s, ".html") ==> s[|s| - 1] == 'l';
  }

  /** The slice `s[:-k]` for a positive `k`: everything but the last `k`
      characters, and the empty string when `s` is shorter than `k`. */
  function DropLast(s: string, k: nat): (r: string)
    requires 0 < k
    ensures k <= |s| ==> |r| == |s| - k && r + s[|s| - k..] == s
    ensures |s| < k ==> r == ""
  {
    if k <= |s| then s[..|s| - k] else ""
  }

  /** Removing a suffix and appending it again gives back the string. */
  lemma DropSuffixRoundTrip(s: string, suffix: string)
    requires 0 < |suffix| && EndsWith(s, suffix)
    ensures DropLast(s, |suffix|) + suffix == s
  {
  }

  /** `os.path.join(root, name)` as POSIX defines it for two arguments: an
      absolute `name` replaces `root`; otherwise a separator is inserted
      unless `root` is empty or already ends in one. */
  function Join(root: string, name: string): (path: string)
    ensures EndsWith(path, name)
    ensures !StartsWith(name, "/") && root != "" ==> StartsWith(path, root)
  {
    if StartsWith(name, "/") then
      name
    else if root == "" || EndsWith(root, "/") then
      EndsWithAppend(root, name);
      root + name
    else
      EndsWithAppend(root + "/", name);
      root + "/" + name
  }

  /** Index of the first occurrence of `c` in `s`, or `|s|` when absent. */
  function IndexOf(s: string, c: char): (i: nat)
    ensures i <= |s|
    ensures i < |s| ==> s[i] == c
    ensures forall j :: 0 <= j < i ==> s[j] != c
  {
    if s == "" then 0
    else if s[0] == c then 0
    else 1 + IndexOf(s[1..], c)
  }

  lemma {:induction false} IndexOfAfter(a: string, b: string, c: char)
    requires c !in a
    ensures IndexOf(a + b, c) == |a| + IndexOf(b, c)
  {
    if a != "" {
      assert a[0] in a;
      assert c !in a[1..] by {
        forall x | x in a[1..] ensures x != c { assert x in a; }
      }
      assert (a + b)[0] == a[0];
      assert (a + b)[1..] == a[1..] + b;
      assert IndexOf(a + b, c) == 1 + IndexOf((a + b)[1..], c);
      IndexOfAfter(a[1..], b, c);
    } else {
      assert a + b == b;
    }
  }
}
