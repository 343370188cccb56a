/** POSIX path-name helpers used to derive a hypernetwork's name from its
    file path: the name is the basename with its final extension removed. */
module Paths {

  /** Index of the last occurrence of `c` in `s`, or -1 when there is none
      (the string `rfind` the path helpers are built on). */
  function LastIndexOf(s: string, c: char): (i: int)
    ensures -1 <= i < |s|
    ensures i >= 0 ==> s[i] == c
    ensures forall j :: i < j < |s| ==> s[j] != c
    decreases |s|
  {
    if |s| == 0 then -1
    else if s[|s| - 1] == c then |s| - 1
    else LastIndexOf(s[..|s| - 1], c)
  }

  /** An index holding `c` (or -1) with no `c` after it is the last index
      of `c`: the contract of `LastIndexOf` determines its result. */
  lemma LastIndexOfUnique(s: string, c: char, i: int)
    requires -1 <= i < |s|
    requires i >= 0 ==> s[i] == c
    requires forall j :: i < j < |s| ==> s[j] != c
    ensures LastIndexOf(s, c) == i
  {
  }

  /** No `c` after index `i` means no `c` in the slice after `i`. */
  lemma NoneAfter(s: string, c: char, i: int)
    requires -1 <= i < |s|
    requires forall j :: i < j < |s| ==> s[j] != c
    ensures c !in s[i + 1..]
  {
    var t := s[i + 1..];
    forall k | 0 <= k < |t| ensures t[k] != c {
      assert t[k] == s[i + 1 + k];
    }
  }

  /** Everything after the last '/', or the whole path when it has none. */
  function Basename(p: string): (b: string)
    ensures '/' !in b
    ensures |b| <= |p| && p[|p| - |b|..] == b
    ensures |b| < |p| ==> p[|p| - |b| - 1] == '/'
  {
    var i := LastIndexOf(p, '/');
    NoneAfter(p, '/', i);
    p[i + 1..]
  }

  /** True when some character of `s` in [lo, hi) is not a dot. */
  predicate HasNonDot(s: string, lo: nat, hi: nat)
    requires lo <= hi <= |s|
  {
    exists k :: lo <= k < hi && s[k] != '.'
  }

  /** Splits `p` into (root, ext): ext starts at the last '.' of the last
      path component, unless every character of that component before the
      dot is itself a dot (a hidden file such as ".pt" has no extension). */
  function SplitExt(p: string): (r: (string, string))
    ensures r.0 + r.1 == p
    ensures r.1 == [] || (r.1[0] == '.' && '.' !in r.1[1..] && '/' !in r.1)
    ensures r.1 != [] ==> HasNonDot(r.0, LastIndexOf(r.0, '/') + 1, |r.0|)
    ensures r.1 == [] ==> NoDotAfterNonDot(p, LastIndexOf(p, '/') + 1)
  {
    var sep := LastIndexOf(p, '/');
    var dot := LastIndexOf(p, '.');
    if dot > sep && HasNonDot(p, sep + 1, dot) then
      SuffixFacts(p, sep, dot);
      (p[..dot], p[dot..])
    else
      NoExtensionFacts(p, sep, dot);
      (p, [])
  }

  /** From index `lo` on, no '.' follows a character that is not a '.':
      the component there is a run of dots followed by dot-free text, so it
      has no extension to split off. */
  predicate NoDotAfterNonDot(s: string, lo: nat)
    requires lo <= |s|
  {
    forall i, j :: lo <= i < j < |s| && s[i] != '.' ==> s[j] != '.'
  }

  /** When the last '.' does not follow the last '/', or only dots stand
      between them, the last component has no extension. */
  lemma NoExtensionFacts(p: string, sep: int, dot: int)
    requires sep == LastIndexOf(p, '/') && dot == LastIndexOf(p, '.')
    requires dot > sep ==> !HasNonDot(p, sep + 1, dot)
    ensures NoDotAfterNonDot(p, sep + 1)
  {
    forall i, j | sep + 1 <= i < j < |p| && p[i] != '.' ensures p[j] != '.' {
      if dot > sep {
        assert !(sep + 1 <= i < dot);
      }
    }
  }

  /** What the last '/' and the last '.' of `p` say about the cut at that
      dot. */
  lemma SuffixFacts(p: string, sep: int, dot: int)
    requires sep == LastIndexOf(p, '/') && dot == LastIndexOf(p, '.') && dot > sep
    requires HasNonDot(p, sep + 1, dot)
    ensures p[..dot] + p[dot..] == p
    ensures p[dot..][0] == '.' && '.' !in p[dot..][1..] && '/' !in p[dot..]
    ensures HasNonDot(p[..dot], LastIndexOf(p[..dot], '/') + 1, dot)
  {
    NoneAfter(p, '.', dot);
    assert p[dot..][1..] == p[dot + 1..];
    NoneAfter(p, '/', dot - 1);
    PrefixKeepsLastSep(p, sep, dot);
  }

  /** Cutting `p` at a dot that follows its last '/' keeps that '/' last
      and keeps the non-dot character in front of the dot. */
  lemma PrefixKeepsLastSep(p: string, sep: int, dot: int)
    requires sep == LastIndexOf(p, '/') && sep < dot <= |p|
    requires HasNonDot(p, sep + 1, dot)
    ensures HasNonDot(p[..dot], LastIndexOf(p[..dot], '/') + 1, dot)
  {
    var q := p[..dot];
    assert forall j :: sep < j < |q| ==> q[j] == p[j];
    LastIndexOfUnique(q, '/', sep);
    var k :| sep + 1 <= k < dot && p[k] != '.';
    assert q[k] == p[k];
  }

  /** The hypernetwork name of a file path: basename minus final extension. */
  function Stem(p: string): (n: string)
    ensures '/' !in n
    ensures n <= Basename(p)
    ensures |n| < |Basename(p)| ==>
      Basename(p)[|n|] == '.' && '.' !in Basename(p)[|n| + 1..] && HasNonDot(n, 0, |n|)
    ensures n == Basename(p) ==> NoDotAfterNonDot(n, 0)
  {
    var b := Basename(p);
    StemFacts(b);
    SplitExt(b).0
  }

  /** What `SplitExt` gives on a single path component. */
  lemma StemFacts(b: string)
    requires '/' !in b
    ensures var n := SplitExt(b).0;
      && n <= b
      && (|n| < |b| ==> b[|n|] == '.' && '.' !in b[|n| + 1..] && HasNonDot(n, 0, |n|))
      && (n == b ==> NoDotAfterNonDot(b, 0))
  {
    var r := SplitExt(b);
    assert b == r.0 + r.1;
    LastIndexOfUnique(b, '/', -1);
    if r.1 != [] {
      assert '/' !in r.0 by {
        forall k | 0 <= k < |r.0| ensures r.0[k] != '/' {
          assert r.0[k] == b[k];
        }
      }
      LastIndexOfUnique(r.0, '/', -1);
      assert b[|r.0|..] == r.1;
      assert b[|r.0| + 1..] == r.1[1..];
    }
  }

  /** The glob `*.pt` only ever yields base names of the form `n + ".pt"`
      with `n` not starting with a dot; the name of such a file is `n`. */
  lemma StemOfPtFile(p: string, n: string)
    requires Basename(p) == n + ".pt"
    requires n != [] && n[0] != '.'
    ensures Stem(p) == n
  {
    CutAtPt(Basename(p), n, Stem(p));
  }

  /** The only prefix of `n + ".pt"` that `Stem`'s contract allows is `n`. */
  lemma CutAtPt(b: string, n: string, s: string)
    requires b == n + ".pt" && n != [] && n[0] != '.'
    requires s <= b
    requires |s| < |b| ==> b[|s|] == '.' && '.' !in b[|s| + 1..]
    requires s == b ==> NoDotAfterNonDot(s, 0)
    ensures s == n
  {
    assert b[0] == n[0] && b[|n|] == '.' && b[|n| + 1] == 'p' && b[|n| + 2] == 't';
    assert |s| < |b|;
    assert forall k :: |s| < k < |b| ==> b[k] == b[|s| + 1..][k - |s| - 1];
    assert |s| == |n|;
    assert s == b[..|n|] == n;
  }

  /** The basename of `dir + "/" + name` is `name` when `name` has no '/':
      a file found in any sub-directory is named by its last component. */
  lemma BasenameOfJoin(dir: string, name: string)
    requires '/' !in name
    ensures Basename(dir + "/" + name) == name
  {
    var p := dir + "/" + name;
    assert p[|dir|] == '/';
    assert forall j :: |dir| < j < |p| ==> p[j] == name[j - |dir| - 1];
    LastIndexOfUnique(p, '/', |dir|);
    assert p[|dir| + 1..] == name;
  }
}
