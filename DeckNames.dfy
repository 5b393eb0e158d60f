/**
 * `calculate_deck_name`: the default deck of a note file is its root directory's
 * name followed by the directories between the root and the file, joined by `::`
 * (Anki's deck-hierarchy separator).
 */
module DeckNames {
  import opened Wrappers
  import opened Strings
  import opened Paths

  /** `file` lies at or below `root` (what `relative_to` demands). */
  predicate Under(root: Path, file: Path)
  {
    |root| <= |file| && file[..|root|] == root
  }

  /** `file.relative_to(root).parts`. */
  function RelativeParts(root: Path, file: Path): (r: seq<string>)
    requires Under(root, file)
    ensures root + r == file
  {
    file[|root|..]
  }

  /** `str(file.relative_to(root))`: the parts joined by `/`, or `.` when there are none. */
  function RelativePathText(root: Path, file: Path): string
    requires Under(root, file)
  {
    var rel := RelativeParts(root, file);
    if rel == [] then "." else Join("/", rel)
  }

  /** The directories between `root` and `file`: `relative_path.parts[:-1]`. */
  function Directories(root: Path, file: Path): (r: seq<string>)
    requires Under(root, file)
    ensures |r| == if |file| == |root| then 0 else |file| - |root| - 1
    ensures forall k :: 0 <= k < |r| ==> r[k] == file[|root| + k]
  {
    var rel := RelativeParts(root, file);
    if rel == [] then [] else rel[..|rel| - 1]
  }

  /**
   * `calculate_deck_name(root_dir, filepath)`. The list always holds the root's
   * name, so the fallback for an empty list is never taken.
   */
  function DeckName(root: Path, file: Path): (r: string)
    requires Under(root, file)
    ensures Name(root) <= r
    ensures Directories(root, file) == [] ==> r == Name(root)
  {
    var parts := [Name(root)] + Directories(root, file);
    JoinHead("::", parts);
    if parts != [] then Join("::", parts) else Name(root)
  }

  /** A join starts with its first part, and is that part alone when there is no other. */
  lemma JoinHead(sep: string, parts: seq<string>)
    requires parts != []
    ensures parts[0] <= Join(sep, parts)
    ensures |parts| == 1 ==> Join(sep, parts) == parts[0]
  {
    if |parts| > 1 {
      assert Join(sep, parts) == parts[0] + (sep + Join(sep, parts[1..]));
    }
  }

  /** A file directly in the root directory belongs to the deck named after the root. */
  lemma FileInRootDeck(root: Path, name: string)
    ensures DeckName(root, root + [name]) == Name(root)
  {
    assert (root + [name])[..|root|] == root;
    assert Directories(root, root + [name]) == [];
  }

  /** One more directory level adds one more `::`-separated component. */
  lemma {:induction false} JoinSnoc(parts: seq<string>, d: string)
    requires parts != []
    ensures Join("::", parts + [d]) == Join("::", parts) + "::" + d
    decreases |parts|
  {
    if |parts| > 1 {
      JoinSnoc(parts[1..], d);
      assert (parts + [d])[1..] == parts[1..] + [d];
    }
  }

  lemma SubdirectoryDeck(root: Path, dirs: seq<string>, d: string, name: string)
    ensures DeckName(root, root + dirs + [d, name]) == DeckName(root, root + dirs + [name]) + "::" + d
  {
    var f1 := root + dirs + [d, name];
    var f2 := root + dirs + [name];
    assert f1[..|root|] == root && f2[..|root|] == root;
    assert Directories(root, f1) == dirs + [d];
    assert Directories(root, f2) == dirs;
    JoinSnoc([Name(root)] + dirs, d);
    assert [Name(root)] + (dirs + [d]) == [Name(root)] + dirs + [d];
  }

  /** `s.split("::")`. */
  function SplitDeck(s: string): (r: seq<string>)
    ensures r != []
    decreases |s|
  {
    match FindFrom(s, "::", 0)
    case None => [s]
    case Some(k) => [s[..k]] + SplitDeck(s[k + 2..])
  }

  predicate NoColon(t: string)
  {
    forall k :: 0 <= k < |t| ==> t[k] != ':'
  }

  lemma FirstSeparator(p: string, rest: string)
    requires NoColon(p)
    ensures FindFrom(p + "::" + rest, "::", 0) == Some(|p|)
  {
    var s := p + "::" + rest;
    assert s[|p|..|p| + 2] == "::";
    forall j | 0 <= j < |p| ensures !At(s, "::", j) {
      assert s[j] == p[j];
      AtHead(s, "::", j);
    }
    assert At(s, "::", |p|);
  }

  /** Splitting a joined deck path at `::` gives back its parts when no part holds a colon. */
  lemma {:induction false} SplitJoin(parts: seq<string>)
    requires parts != []
    requires forall k :: 0 <= k < |parts| ==> NoColon(parts[k])
    ensures SplitDeck(Join("::", parts)) == parts
    decreases |parts|
  {
    if |parts| == 1 {
      var p := parts[0];
      forall j | 0 <= j <= |p| ensures !At(p, "::", j) {
        AtHead(p, "::", j);
      }
    } else {
      var rest := Join("::", parts[1..]);
      FirstSeparator(parts[0], rest);
      SplitJoin(parts[1..]);
      var s := parts[0] + "::" + rest;
      assert s[..|parts[0]|] == parts[0];
      assert s[|parts[0]| + 2..] == rest;
    }
  }

  /**
   * The deck hierarchy Anki reads back from the name is the root's name followed by
   * the directories, when none of those names holds a colon.
   */
  lemma DeckHierarchy(root: Path, file: Path)
    requires Under(root, file)
    requires NoColon(Name(root)) && forall k :: |root| <= k < |file| ==> NoColon(file[k])
    ensures SplitDeck(DeckName(root, file)) == [Name(root)] + Directories(root, file)
  {
    SplitJoin([Name(root)] + Directories(root, file));
  }

  lemma NestedFileDeck()
    ensures DeckName(["tmp", "notes"], ["tmp", "notes", "programming", "python", "test.md"])
      == "notes::programming::python"
  {
    var root: Path := ["tmp", "notes"];
    var file: Path := ["tmp", "notes", "programming", "python", "test.md"];
    assert file[..|root|] == root;
    assert Directories(root, file) == ["programming", "python"];
    assert [Name(root)] + Directories(root, file) == ["notes", "programming", "python"];
    assert Join("::", ["python"]) == "python";
    assert Join("::", ["programming", "python"]) == "programming::python";
  }
}
