// What a walk of a package finds, by the tree it walks over.

module PackageForms {
  import opened Wrappers
  import opened Framing
  import opened PackageWalk

  /** These names lead to a regular file with this content. */
  ghost predicate HasFile(node: Node, at: seq<Bytes>, content: Bytes)
    decreases |at|
  {
    match node
    case Regular(c) => at == [] && c == content
    case Folder(entries) => at != [] && EntryHas(entries, at, content)
    case Special => false
  }

  ghost predicate EntryHas(entries: seq<Entry>, at: seq<Bytes>, content: Bytes)
    requires at != []
    decreases |at|, 0
  {
    exists k :: 0 <= k < |entries| && entries[k].name == at[0] && HasFile(entries[k].node, at[1..], content)
  }

  /** Every entry is a directory or a regular file and every name is text. */
  ghost predicate Readable(text: Utf8, node: Node) {
    match node
    case Regular(_) => true
    case Folder(entries) => forall k :: 0 <= k < |entries| ==> text(entries[k].name) && Readable(text, entries[k].node)
    case Special => false
  }

  lemma InBelow(name: Bytes, leaves: seq<Leaf>, at: seq<Bytes>, content: Bytes)
    ensures Leaf(at, content) in Below(name, leaves) <==> at != [] && at[0] == name && Leaf(at[1..], content) in leaves
  {
    var below := Below(name, leaves);
    if at != [] && at[0] == name && Leaf(at[1..], content) in leaves {
      var i :| 0 <= i < |leaves| && leaves[i] == Leaf(at[1..], content);
      assert at == [name] + at[1..] && below[i] == Leaf(at, content);
    }
    if Leaf(at, content) in below {
      var i :| 0 <= i < |below| && below[i] == Leaf(at, content);
      assert leaves[i] == Leaf(at[1..], content);
    }
  }

  lemma EntryFirst(entries: seq<Entry>, at: seq<Bytes>, content: Bytes)
    requires entries != [] && at != []
    ensures EntryHas(entries, at, content) <==>
            (entries[0].name == at[0] && HasFile(entries[0].node, at[1..], content)) || EntryHas(entries[1..], at, content)
  {
    if k :| 0 <= k < |entries| && entries[k].name == at[0] && HasFile(entries[k].node, at[1..], content) && k > 0 {
      assert entries[1..][k - 1] == entries[k];
    }
    if k :| 0 <= k < |entries[1..]| && entries[1..][k].name == at[0] && HasFile(entries[1..][k].node, at[1..], content) {
      assert entries[k + 1] == entries[1..][k];
    }
  }

  lemma SameEntries(a: seq<Entry>, b: seq<Entry>, at: seq<Bytes>, content: Bytes)
    requires multiset(a) == multiset(b) && at != [] && EntryHas(a, at, content)
    ensures EntryHas(b, at, content)
  {
    var k :| 0 <= k < |a| && a[k].name == at[0] && HasFile(a[k].node, at[1..], content);
    assert a[k] in multiset(b);
  }

  ghost predicate Finds(leaves: seq<Leaf>, node: Node, at: seq<Bytes>, content: Bytes) {
    Leaf(at, content) in leaves <==> HasFile(node, at, content)
  }

  /** The walk fails on what it cannot read, and otherwise lists each file of the tree
      under the names that lead to it, and nothing else. */
  lemma {:induction false} VisitFinds(text: Utf8, node: Node, at: seq<Bytes>, content: Bytes)
    ensures Visit(text, node).Some? <==> Readable(text, node)
    ensures Visit(text, node).Some? ==> Finds(Visit(text, node).value, node, at, content)
    decreases 2 * Depth(node), 0
  {
    if node.Folder? {
      var sorted := InNameOrder(node.entries);
      EachFinds(text, sorted, at, content);
      SameReadable(text, node.entries, sorted);
      if at != [] {
        if EntryHas(node.entries, at, content) {
          SameEntries(node.entries, sorted, at, content);
        }
        if EntryHas(sorted, at, content) {
          SameEntries(sorted, node.entries, at, content);
        }
      }
    }
  }

  ghost predicate AllReadable(text: Utf8, entries: seq<Entry>) {
    forall k :: 0 <= k < |entries| ==> Readable(text, entries[k].node)
  }

  lemma SameReadable(text: Utf8, a: seq<Entry>, b: seq<Entry>)
    requires multiset(a) == multiset(b)
    ensures AllReadable(text, a) <==> AllReadable(text, b)
  {
    forall k | 0 <= k < |a|
      ensures a[k] in b
    {
      assert a[k] in multiset(b);
    }
    forall k | 0 <= k < |b|
      ensures b[k] in a
    {
      assert b[k] in multiset(a);
    }
  }

  lemma {:induction false} EachFinds(text: Utf8, entries: seq<Entry>, at: seq<Bytes>, content: Bytes)
    ensures VisitEach(text, entries).Some? <==> AllReadable(text, entries)
    ensures VisitEach(text, entries).Some? ==>
              (Leaf(at, content) in VisitEach(text, entries).value <==> at != [] && EntryHas(entries, at, content))
    decreases 2 * DepthOf(entries) + 1, |entries|
  {
    if entries != [] {
      var name, node, rest := entries[0].name, entries[0].node, entries[1..];
      DepthBound(rest, DepthOf(entries));
      VisitFinds(text, node, if at != [] then at[1..] else [], content);
      EachFinds(text, rest, at, content);
      assert entries == [entries[0]] + rest;
      if AllReadable(text, entries) {
        InBelow(name, Visit(text, node).value, at, content);
      }
      if at != [] {
        EntryFirst(entries, at, content);
      }
    }
  }

  /** The names of a path are joined with slashes. */
  lemma {:induction false} JoinSlashes(at: seq<Bytes>, name: Bytes)
    requires at != []
    ensures Join([name]) == name && Join(at + [name]) == Join(at) + ['/' as byte] + name
  {
    if |at| > 1 {
      assert (at + [name])[1..] == at[1..] + [name];
      JoinSlashes(at[1..], name);
    } else {
      assert (at + [name])[1..] == [name];
    }
  }

  /** A package is read exactly when it is a directory in which everything can be read;
      a file of it is framed under its joined names. */
  lemma PackageFinds(text: Utf8, root: Node, at: seq<Bytes>, content: Bytes)
    ensures PackageFiles(text, root).Some? <==> root.Folder? && Readable(text, root)
    ensures PackageFiles(text, root).Some? && HasFile(root, at, content) ==>
              File(Join(at), content) in PackageFiles(text, root).value
  {
    VisitFinds(text, root, at, content);
    if PackageFiles(text, root).Some? && HasFile(root, at, content) {
      var leaves := Visit(text, root).value;
      var i :| 0 <= i < |leaves| && leaves[i] == Leaf(at, content);
      assert [] + at == at;
      assert FilesAt([], leaves)[i] == File(Join(at), content);
    }
  }

  /** And every file that is framed is one of them. */
  lemma PackageHolds(text: Utf8, root: Node, file: File) returns (at: seq<Bytes>)
    requires PackageFiles(text, root).Some? && file in PackageFiles(text, root).value
    ensures HasFile(root, at, file.content) && file.path == Join(at)
  {
    var leaves := Visit(text, root).value;
    var i :| 0 <= i < |leaves| && FilesAt([], leaves)[i] == file;
    at := leaves[i].at;
    assert [] + at == at;
    assert leaves[i] == Leaf(at, file.content);
    VisitFinds(text, root, at, file.content);
  }
}
