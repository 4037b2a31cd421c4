/**
 The two `os.path` functions the scraper calls, with their POSIX meaning:
 `splitext`, which splits a path into a root and an extension, and `join`.
 */
module PosixPath {
  import opened Text

  const SEP := '/'
  const EXTSEP := '.'

  /**
   The final component of `p` has a dot that some character other than a
   dot precedes inside that component: only then does `splitext` find an
   extension.
   */
  ghost predicate HasExtension(p: string) {
    exists i, j :: 0 <= i < j < |p| && p[i] != EXTSEP && p[j] == EXTSEP && SEP !in p[i..]
  }

  /**
   `os.path.splitext(p)`: the extension runs from the last dot after the
   last separator, leading dots of the final component do not count, and
   without such a dot the extension is empty. Whatever follows the dot,
   a query string included, stays in the extension.
   */
  function SplitExt(p: string): (parts: (string, string))
    ensures parts.0 + parts.1 == p
    ensures parts.1 == [] || (parts.1[0] == EXTSEP && forall i :: 1 <= i < |parts.1| ==> parts.1[i] != EXTSEP && parts.1[i] != SEP)
    ensures parts.1 != [] <==> HasExtension(p)
  {
    var sepIndex := LastIndex(p, SEP);
    var dotIndex := LastIndex(p, EXTSEP);
    HasExtensionIff(p, sepIndex, dotIndex);
    if dotIndex > sepIndex && exists i | sepIndex + 1 <= i < dotIndex :: p[i] != EXTSEP then
      (p[..dotIndex], p[dotIndex..])
    else
      (p, [])
  }

  /** The index test that `splitext` runs is exactly `HasExtension`. */
  lemma HasExtensionIff(p: string, sepIndex: int, dotIndex: int)
    requires sepIndex == LastIndex(p, SEP) && dotIndex == LastIndex(p, EXTSEP)
    ensures HasExtension(p) <==> dotIndex > sepIndex && exists i | sepIndex + 1 <= i < dotIndex :: p[i] != EXTSEP
  {
    if dotIndex > sepIndex && exists i | sepIndex + 1 <= i < dotIndex :: p[i] != EXTSEP {
      var i :| sepIndex + 1 <= i < dotIndex && p[i] != EXTSEP;
      assert forall k | 0 <= k < |p[i..]| :: p[i..][k] == p[i + k] != SEP;
    }
    if HasExtension(p) {
      var i, j :| 0 <= i < j < |p| && p[i] != EXTSEP && p[j] == EXTSEP && SEP !in p[i..];
      assert forall k | i <= k < |p| :: p[k] == p[i..][k - i];
      assert sepIndex + 1 <= i < dotIndex;
    }
  }

  /**
   Text in front of a path that starts with a separator does not change
   its extension: the final component lies inside the path.
   */
  lemma {:induction false} SplitExtIgnoresPrefix(prefix: string, p: string)
    requires p != [] && p[0] == SEP
    ensures SplitExt(prefix + p).1 == SplitExt(p).1
  {
    var whole := prefix + p;
    var sepIndex, dotIndex := LastIndex(p, SEP), LastIndex(p, EXTSEP);
    LastIndexAppend(prefix, p, SEP);
    LastIndexAppend(prefix, p, EXTSEP);
    var n := |prefix|;
    if dotIndex >= 0 {
      if i :| sepIndex + 1 <= i < dotIndex && p[i] != EXTSEP {
        assert whole[n + i] == p[i];
      }
      if i :| n + sepIndex + 1 <= i < n + dotIndex && whole[i] != EXTSEP {
        assert p[i - n] == whole[i];
      }
      assert whole[n + dotIndex..] == p[dotIndex..];
    }
  }

  /**
   A path made of a final component with a non-dot character, then a dot
   and no further dot or separator, has exactly that dotted tail as its
   extension.
   */
  lemma SplitExtOfShape(root: string, ext: string, i: nat)
    requires i < |root| && root[i] != EXTSEP
    requires forall k :: i <= k < |root| ==> root[k] != SEP
    requires ext != [] && ext[0] == EXTSEP
    requires forall k :: 1 <= k < |ext| ==> ext[k] != EXTSEP && ext[k] != SEP
    ensures SplitExt(root + ext).1 == ext
  {
    var p := root + ext;
    var n := |root|;
    var sepIndex, dotIndex := LastIndex(p, SEP), LastIndex(p, EXTSEP);
    assert p[n] == EXTSEP;
    assert forall k | n < k < |p| :: p[k] == ext[k - n] && p[k] != EXTSEP;
    assert dotIndex == n;
    assert forall k | i <= k < |p| :: p[k] != SEP by {
      assert forall k | i <= k < n :: p[k] == root[k];
      assert forall k | n <= k < |p| :: p[k] == ext[k - n];
    }
    assert sepIndex < i;
    assert p[i] == root[i] != EXTSEP;
    assert p[n..] == ext;
  }

  /**
   `os.path.join(a, b)`: `b` alone when it is absolute, otherwise `b`
   appended to `a` with one separator between them.
   */
  function Join(a: string, b: string): (path: string)
    ensures EndsWith(path, b)
    ensures StartsWith(b, [SEP]) ==> path == b
    ensures !StartsWith(b, [SEP]) ==> StartsWith(path, a) && |path| <= |a| + 1 + |b|
    ensures !StartsWith(b, [SEP]) && a != [] && !EndsWith(a, [SEP]) ==> path == a + [SEP] + b
    ensures !StartsWith(b, [SEP]) && (a == [] || EndsWith(a, [SEP])) ==> path == a + b
  {
    if StartsWith(b, [SEP]) then b
    else if a == [] || EndsWith(a, [SEP]) then a + b
    else a + [SEP] + b
  }
}
