/** Dynamic-content folders and their `Path` and `Outline`, both built along
    the chain of parent folders (DynamicContentFolder.cs). */
module DynamicContentFolders {
  import opened Wrappers

  datatype Folder = Folder(id: string, name: string, parent: Option<Folder>)

  /** `Path`: the folder names from the root down, joined with a backslash. */
  function Path(f: Folder): (p: string)
    ensures |f.name| <= |p| && p[|p| - |f.name|..] == f.name
    decreases f
  {
    match f.parent
    case None => f.name
    case Some(parent) => Path(parent) + "\\" + f.name
  }

  /** `Outline`: the folder ids from the root down, joined with a semicolon. */
  function Outline(f: Folder): (o: string)
    ensures |f.id| <= |o| && o[|o| - |f.id|..] == f.id
    decreases f
  {
    match f.parent
    case None => f.id
    case Some(parent) => Outline(parent) + ";" + f.id
  }

  /** Number of ancestors of `f`. */
  function Depth(f: Folder): nat
    decreases f
  {
    match f.parent
    case None => 0
    case Some(parent) => 1 + Depth(parent)
  }

  /** Every folder along the parent chain of `f`, `f` included. */
  function Chain(f: Folder): seq<Folder>
    decreases f
  {
    match f.parent
    case None => [f]
    case Some(parent) => Chain(parent) + [f]
  }

  /** Occurrences of `c` in `s`. */
  function CountChar(s: string, c: char): nat
    decreases |s|
  {
    if |s| == 0 then 0 else (if s[0] == c then 1 else 0) + CountChar(s[1..], c)
  }

  lemma {:induction false} CountCharAppend(a: string, b: string, c: char)
    ensures CountChar(a + b, c) == CountChar(a, c) + CountChar(b, c)
    decreases |a|
  {
    if |a| > 0 {
      assert (a + b)[1..] == a[1..] + b;
      CountCharAppend(a[1..], b, c);
    } else {
      assert a + b == b;
    }
  }

  lemma {:induction false} CountCharAbsent(s: string, c: char)
    requires c !in s
    ensures CountChar(s, c) == 0
    decreases |s|
  {
    if |s| > 0 {
      assert forall x :: x in s[1..] ==> x in s;
      CountCharAbsent(s[1..], c);
    }
  }

  /** A parent's outline is a proper prefix of its child's outline. */
  lemma ParentOutlineIsProperPrefix(f: Folder)
    requires f.parent.Some?
    ensures Outline(f.parent.value) < Outline(f)
  {
    var o := Outline(f.parent.value);
    var full := Outline(f);
    assert full == o + ";" + f.id;
    assert full[..|o|] == o;
    assert |o| < |full|;
  }

  lemma PrefixTransitive(a: string, b: string, c: string)
    requires a <= b && b <= c
    ensures a <= c
  {
  }

  /** Every ancestor's outline is a prefix of the folder's outline, and every
      ancestor's path a prefix of its path. */
  lemma {:induction false} AncestorsArePrefixes(f: Folder)
    ensures forall a :: a in Chain(f) ==> Outline(a) <= Outline(f) && Path(a) <= Path(f)
    decreases f
  {
    match f.parent
    case None =>
    case Some(parent) =>
      AncestorsArePrefixes(parent);
      var o, p := Outline(parent), Path(parent);
      assert Outline(f) == o + ";" + f.id;
      assert Path(f) == p + "\\" + f.name;
      assert Outline(f)[..|o|] == o;
      assert Path(f)[..|p|] == p;
      assert Chain(f) == Chain(parent) + [f];
      forall a | a in Chain(f) ensures Outline(a) <= Outline(f) && Path(a) <= Path(f) {
        if a != f {
          assert a in Chain(parent);
          PrefixTransitive(Outline(a), o, Outline(f));
          PrefixTransitive(Path(a), p, Path(f));
        }
      }
  }

  /** When no id along the chain holds ';', the outline holds one ';' per ancestor. */
  lemma {:induction false} OutlineSeparatorsCountAncestors(f: Folder)
    requires forall a :: a in Chain(f) ==> ';' !in a.id
    ensures CountChar(Outline(f), ';') == Depth(f)
    decreases f
  {
    assert f in Chain(f) by {
      match f.parent
      case None =>
      case Some(parent) => assert Chain(f) == Chain(parent) + [f];
    }
    CountCharAbsent(f.id, ';');
    match f.parent
    case None =>
    case Some(parent) =>
      assert forall a :: a in Chain(parent) ==> a in Chain(f);
      OutlineSeparatorsCountAncestors(parent);
      CountCharAppend(Outline(parent), ";", ';');
      CountCharAppend(Outline(parent) + ";", f.id, ';');
      assert CountChar(";", ';') == 1 by {
        assert ";"[1..] == "";
      }
  }
}
