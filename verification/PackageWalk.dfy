// The walk of a package directory: `sha256_directory` of
// crates/conformance/src/integrity.rs over directory trees.

module PackageWalk {
  import opened Wrappers
  import opened Fips180
  import opened Sha256
  import opened Sorting
  import opened Framing

  const SLASH: byte := 47
  const DOT: byte := 46

  /** What a directory can hold. `Special` is a symbolic link or any other special file. */
  datatype Node =
    | Regular(content: Bytes)
    | Folder(entries: seq<Entry>)
    | Special

  datatype Entry = Entry(name: Bytes, node: Node)

  /** A file below a directory, by the names that lead to it. */
  datatype Leaf = Leaf(at: seq<Bytes>, content: Bytes)

  /** What a file system lets a name be. */
  predicate NameOk(name: Bytes) {
    name != [] && name != [DOT] && name != [DOT, DOT] && NulFree(name) && SLASH !in name
  }

  function NameOf(e: Entry): Bytes {
    e.name
  }

  /** Names are valid and no directory holds a name twice; entries come in any order. */
  ghost predicate TreeOk(node: Node) {
    node.Folder? ==>
      && DistinctBy(NameOf, node.entries)
      && forall i :: 0 <= i < |node.entries| ==> NameOk(node.entries[i].name) && TreeOk(node.entries[i].node)
  }

  // ------------------------------------------------------------------- the visit

  function Depth(node: Node): nat {
    if node.Folder? then 1 + DepthOf(node.entries) else 0
  }

  function DepthOf(entries: seq<Entry>): (d: nat)
    ensures forall i :: 0 <= i < |entries| ==> Depth(entries[i].node) <= d
  {
    if entries == [] then 0
    else
      var first, rest := Depth(entries[0].node), DepthOf(entries[1..]);
      if first < rest then rest else first
  }

  lemma {:induction false} DepthBound(entries: seq<Entry>, d: nat)
    requires forall i :: 0 <= i < |entries| ==> Depth(entries[i].node) <= d
    ensures DepthOf(entries) <= d
  {
    if entries != [] {
      DepthBound(entries[1..], d);
    }
  }

  function NameLess(): (Bytes, Bytes) -> bool {
    Lex(ByteLess)
  }

  lemma NameOrder()
    ensures TotalOrder(NameLess())
  {
    LexOrder(ByteLess);
  }

  lemma SortedDepth(entries: seq<Entry>)
    ensures var sorted := Sort(ByKey(NameLess(), NameOf), entries);
            multiset(sorted) == multiset(entries) && DepthOf(sorted) <= DepthOf(entries)
  {
    var less := ByKey(NameLess(), NameOf);
    NameOrder();
    ByKeyStrict(NameLess(), NameOf);
    SortCorrect(less, entries);
    SameMembersDepth(Sort(less, entries), entries);
  }

  lemma SameMembersDepth(a: seq<Entry>, b: seq<Entry>)
    requires multiset(a) == multiset(b)
    ensures DepthOf(a) <= DepthOf(b)
  {
    forall i | 0 <= i < |a|
      ensures Depth(a[i].node) <= DepthOf(b)
    {
      assert a[i] in multiset(b);
    }
    DepthBound(a, DepthOf(b));
  }

  /** The entries of a directory by name. */
  function InNameOrder(entries: seq<Entry>): (sorted: seq<Entry>)
    ensures multiset(sorted) == multiset(entries) && DepthOf(sorted) <= DepthOf(entries)
  {
    SortedDepth(entries);
    Sort(ByKey(NameLess(), NameOf), entries)
  }

  function Below(name: Bytes, leaves: seq<Leaf>): (below: seq<Leaf>)
    ensures |below| == |leaves|
  {
    seq(|leaves|, i requires 0 <= i < |leaves| => Leaf([name] + leaves[i].at, leaves[i].content))
  }

  type Utf8 = Bytes -> bool

  /** All names are text. */
  predicate AllText(text: Utf8, entries: seq<Entry>) {
    forall i :: 0 <= i < |entries| ==> text(entries[i].name)
  }

  /** The files at or below a node in the order of the walk; nothing when some name is not
      text or some entry is special. */
  function Visit(text: Utf8, node: Node): Option<seq<Leaf>>
    decreases 2 * Depth(node), 0
  {
    match node
    case Regular(content) => Some([Leaf([], content)])
    case Folder(entries) => if AllText(text, entries) then VisitEach(text, InNameOrder(entries)) else None
    case Special => None
  }

  function VisitEach(text: Utf8, entries: seq<Entry>): Option<seq<Leaf>>
    decreases 2 * DepthOf(entries) + 1, |entries|
  {
    if entries == [] then Some([])
    else
      DepthBound(entries[1..], DepthOf(entries));
      var first, rest := Visit(text, entries[0].node), VisitEach(text, entries[1..]);
      if first.None? || rest.None? then None
      else Some(Below(entries[0].name, first.value) + rest.value)
  }

  function Join(at: seq<Bytes>): Bytes {
    if at == [] then [] else if |at| == 1 then at[0] else at[0] + [SLASH] + Join(at[1..])
  }

  /** The files as they are framed, below a directory at `at`. */
  function FilesAt(at: seq<Bytes>, leaves: seq<Leaf>): (files: seq<File>)
    ensures |files| == |leaves|
  {
    seq(|leaves|, i requires 0 <= i < |leaves| => File(Join(at + leaves[i].at), leaves[i].content))
  }

  /** The files of a package; nothing when reading it fails. */
  function PackageFiles(text: Utf8, root: Node): Option<seq<File>> {
    if !root.Folder? || Visit(text, root).None? then None else Some(FilesAt([], Visit(text, root).value))
  }

  // ------------------------------------------------------------- the program's walk

  function Framed(at: seq<Bytes>, framed: Bytes, leaves: Option<seq<Leaf>>): Option<Bytes> {
    if leaves.None? then None else Some(framed + ListingFrame(FilesAt(at, leaves.value)))
  }

  lemma {:induction false} ListingConcat(a: seq<File>, b: seq<File>)
    ensures ListingFrame(a + b) == ListingFrame(a) + ListingFrame(b)
  {
    if b == [] {
      assert a + b == a;
    } else {
      var front, last := b[..|b| - 1], b[|b| - 1];
      ListingConcat(a, front);
      ListingSnoc(a + front, last);
      ListingSnoc(front, last);
      assert a + b == (a + front) + [last] && b == front + [last];
      Append(ListingFrame(a), ListingFrame(front), last.path + [0] + last.content + [0]);
    }
  }

  lemma FilesBelow(at: seq<Bytes>, name: Bytes, leaves: seq<Leaf>, rest: seq<Leaf>)
    ensures FilesAt(at, Below(name, leaves) + rest) == FilesAt(at + [name], leaves) + FilesAt(at, rest)
  {
    forall i | 0 <= i < |leaves|
      ensures at + Below(name, leaves)[i].at == (at + [name]) + leaves[i].at
    {
    }
  }

  /** What is framed for the first entry, then for the rest. */
  lemma FrameFirst(text: Utf8, at: seq<Bytes>, framed: Bytes, entries: seq<Entry>)
    requires entries != []
    ensures var first := Framed(at + [entries[0].name], framed, Visit(text, entries[0].node));
            Framed(at, framed, VisitEach(text, entries)) ==
            if first.None? then None else Framed(at, first.value, VisitEach(text, entries[1..]))
  {
    var leaves, rest := Visit(text, entries[0].node), VisitEach(text, entries[1..]);
    if leaves.Some? && rest.Some? {
      FilesBelow(at, entries[0].name, leaves.value, rest.value);
      var x, y := FilesAt(at + [entries[0].name], leaves.value), FilesAt(at, rest.value);
      ListingConcat(x, y);
      Append(framed, ListingFrame(x), ListingFrame(y));
    }
  }

  lemma FrameOne(at: seq<Bytes>, framed: Bytes, content: Bytes)
    ensures Framed(at, framed, Some([Leaf([], content)])) == Some(framed + Join(at) + [0] + content + [0])
  {
    var file := File(Join(at), content);
    assert at + [] == at && FilesAt(at, [Leaf([], content)]) == [] + [file];
    ListingSnoc([], file);
    assert framed + ([] + (file.path + [0] + file.content + [0])) == framed + Join(at) + [0] + content + [0];
  }

  /** The recursive walk over one directory: entries are sorted by name, and each file is
      framed into the buffer. */
  method VisitFolder(text: Utf8, at: seq<Bytes>, entries: seq<Entry>, before: Bytes) returns (framed: Option<Bytes>)
    ensures framed == Framed(at, before, Visit(text, Folder(entries)))
    decreases Depth(Folder(entries))
  {
    if !AllText(text, entries) {
      return None;
    }
    var sorted := InNameOrder(entries);
    var buffer := before;
    for i := 0 to |sorted|
      invariant Framed(at, before, VisitEach(text, sorted)) == Framed(at, buffer, VisitEach(text, sorted[i..]))
    {
      var name, node := sorted[i].name, sorted[i].node;
      assert sorted[i..][0] == sorted[i] && sorted[i..][1..] == sorted[i + 1..];
      FrameFirst(text, at, buffer, sorted[i..]);
      match node {
        case Folder(inner) =>
          var below := VisitFolder(text, at + [name], inner, buffer);
          if below.None? {
            return None;
          }
          buffer := below.value;
        case Regular(content) =>
          FrameOne(at + [name], buffer, content);
          buffer := buffer + Join(at + [name]);
          buffer := buffer + [0];
          buffer := buffer + content;
          buffer := buffer + [0];
        case Special =>
          return None;
      }
    }
    assert buffer + [] == buffer;
    return Some(buffer);
  }

  /** The identity of a package is the digest of its files framed in the order of the walk. */
  method Sha256Directory(text: Utf8, root: Node) returns (identity: Option<string>)
    ensures var files := PackageFiles(text, root);
            identity == if files.None? then None else Some(Hex(Digest(ListingFrame(files.value))))
  {
    if !root.Folder? {
      return None;
    }
    var framed := VisitFolder(text, [], root.entries, []);
    if framed.None? {
      return None;
    }
    assert [] + ListingFrame(PackageFiles(text, root).value) == ListingFrame(PackageFiles(text, root).value);
    var digest := Sha256Bytes(framed.value);
    return Some(digest);
  }

  // ----------------------------------------------------- which listings are walks

  /** Names in order at the first place where two paths differ; neither leads below the
      other. */
  predicate Precedes(a: seq<Bytes>, b: seq<Bytes>) {
    a != [] && b != [] && (NameLess()(a[0], b[0]) || (a[0] == b[0] && Precedes(a[1..], b[1..])))
  }

  predicate Named(text: Utf8, at: seq<Bytes>) {
    forall i :: 0 <= i < |at| ==> NameOk(at[i]) && text(at[i])
  }

  /** Leaves with valid names, in the order of the walk. */
  ghost predicate Walked(text: Utf8, leaves: seq<Leaf>) {
    && (forall i :: 0 <= i < |leaves| ==> Named(text, leaves[i].at))
    && (forall i, j :: 0 <= i < j < |leaves| ==> Precedes(leaves[i].at, leaves[j].at))
  }

  /** All leaves are below names of these entries. */
  ghost predicate Under(entries: seq<Entry>, leaves: seq<Leaf>) {
    forall i :: 0 <= i < |leaves| ==>
      leaves[i].at != [] && exists k :: 0 <= k < |entries| && entries[k].name == leaves[i].at[0]
  }

  /** Entries in increasing order of valid names. */
  ghost predicate Sorted(text: Utf8, entries: seq<Entry>) {
    && IncreasingBy(NameLess(), NameOf, entries)
    && forall i :: 0 <= i < |entries| ==> NameOk(entries[i].name) && text(entries[i].name) && TreeOk(entries[i].node)
  }

  lemma BelowWalked(text: Utf8, name: Bytes, leaves: seq<Leaf>)
    requires NameOk(name) && text(name) && Walked(text, leaves)
    ensures Walked(text, Below(name, leaves))
  {
    forall i, j | 0 <= i < j < |leaves|
      ensures Precedes([name] + leaves[i].at, [name] + leaves[j].at)
    {
      assert ([name] + leaves[i].at)[1..] == leaves[i].at && ([name] + leaves[j].at)[1..] == leaves[j].at;
    }
  }

  lemma JoinWalked(text: Utf8, name: Bytes, leaves: seq<Leaf>, rest: seq<Leaf>)
    requires Walked(text, Below(name, leaves)) && Walked(text, rest)
    requires forall j :: 0 <= j < |rest| ==> rest[j].at != [] && NameLess()(name, rest[j].at[0])
    ensures Walked(text, Below(name, leaves) + rest)
  {
    var first := Below(name, leaves);
    forall i, j | 0 <= i < |first| && 0 <= j < |rest|
      ensures Precedes(first[i].at, rest[j].at)
    {
      assert first[i].at[0] == name;
    }
  }

  lemma {:induction false} VisitWalked(text: Utf8, node: Node)
    requires TreeOk(node) && Visit(text, node).Some?
    ensures Walked(text, Visit(text, node).value)
    ensures node.Folder? ==> forall i :: 0 <= i < |Visit(text, node).value| ==> Visit(text, node).value[i].at != []
    decreases 2 * Depth(node), 0
  {
    if node.Folder? {
      SortedEntries(text, node.entries);
      EachWalked(text, InNameOrder(node.entries));
    }
  }

  lemma SortedEntries(text: Utf8, entries: seq<Entry>)
    requires TreeOk(Folder(entries)) && AllText(text, entries)
    ensures Sorted(text, InNameOrder(entries))
  {
    NameOrder();
    SortByKey(NameLess(), NameOf, entries);
    var sorted := InNameOrder(entries);
    forall i | 0 <= i < |sorted|
      ensures NameOk(sorted[i].name) && text(sorted[i].name) && TreeOk(sorted[i].node)
    {
      assert sorted[i] in multiset(entries);
      var k :| 0 <= k < |entries| && entries[k] == sorted[i];
      assert TreeOk(entries[k].node);
    }
  }

  lemma {:induction false} EachWalked(text: Utf8, entries: seq<Entry>)
    requires Sorted(text, entries) && VisitEach(text, entries).Some?
    ensures Walked(text, VisitEach(text, entries).value) && Under(entries, VisitEach(text, entries).value)
    decreases 2 * DepthOf(entries) + 1, |entries|
  {
    if entries != [] {
      var name, rest := entries[0].name, entries[1..];
      var leaves, others := Visit(text, entries[0].node).value, VisitEach(text, rest).value;
      DepthBound(rest, DepthOf(entries));
      VisitWalked(text, entries[0].node);
      EachWalked(text, rest);
      BelowWalked(text, name, leaves);
      forall j | 0 <= j < |others|
        ensures NameLess()(name, others[j].at[0])
      {
        var k :| 0 <= k < |rest| && rest[k].name == others[j].at[0];
        assert entries[k + 1] == rest[k];
      }
      JoinWalked(text, name, leaves, others);
      UnderFirst(entries, leaves, others);
    }
  }

  lemma UnderFirst(entries: seq<Entry>, leaves: seq<Leaf>, others: seq<Leaf>)
    requires entries != [] && Under(entries[1..], others)
    ensures Under(entries, Below(entries[0].name, leaves) + others)
  {
    var all := Below(entries[0].name, leaves) + others;
    forall i | 0 <= i < |all|
      ensures all[i].at != [] && exists k :: 0 <= k < |entries| && entries[k].name == all[i].at[0]
    {
      if i >= |leaves| {
        var k :| 0 <= k < |entries[1..]| && entries[1..][k].name == others[i - |leaves|].at[0];
        assert entries[k + 1].name == all[i].at[0];
      }
    }
  }

  // ------------------------------------------------ a tree for every such listing

  function Total(leaves: seq<Leaf>): nat {
    if leaves == [] then 0 else |leaves[0].at| + Total(leaves[1..])
  }

  lemma {:induction false} TotalConcat(a: seq<Leaf>, b: seq<Leaf>)
    ensures Total(a + b) == Total(a) + Total(b)
  {
    if a == [] {
      assert a + b == b;
    } else {
      assert (a + b)[1..] == a[1..] + b;
      TotalConcat(a[1..], b);
    }
  }

  /** The names behind the first one. */
  function Tails(leaves: seq<Leaf>): (tails: seq<Leaf>)
    requires forall i :: 0 <= i < |leaves| ==> leaves[i].at != []
    ensures |tails| == |leaves|
  {
    seq(|leaves|, i requires 0 <= i < |leaves| => Leaf(leaves[i].at[1..], leaves[i].content))
  }

  lemma {:induction false} TotalTails(leaves: seq<Leaf>)
    requires forall i :: 0 <= i < |leaves| ==> leaves[i].at != []
    ensures Total(Tails(leaves)) == Total(leaves) - |leaves|
  {
    if leaves != [] {
      TotalTails(leaves[1..]);
      assert Tails(leaves)[1..] == Tails(leaves[1..]);
    }
  }

  /** How many leaves at the start are below the same name. */
  function Run(leaves: seq<Leaf>, name: Bytes): (n: nat)
    ensures n <= |leaves|
    ensures forall i :: 0 <= i < n ==> leaves[i].at != [] && leaves[i].at[0] == name
    ensures n < |leaves| ==> leaves[n].at == [] || leaves[n].at[0] != name
  {
    if leaves != [] && leaves[0].at != [] && leaves[0].at[0] == name then 1 + Run(leaves[1..], name) else 0
  }

  lemma SameHead(a: seq<Bytes>, b: seq<Bytes>)
    requires Precedes(a, b) && a[0] == b[0]
    ensures |a| > 1 && |b| > 1 && Precedes(a[1..], b[1..])
  {
    NameOrder();
  }

  lemma TailsWalked(text: Utf8, group: seq<Leaf>, name: Bytes)
    requires Walked(text, group) && forall i :: 0 <= i < |group| ==> group[i].at != [] && group[i].at[0] == name
    ensures Walked(text, Tails(group)) && Below(name, Tails(group)) == group
  {
    var tails := Tails(group);
    forall i, j | 0 <= i < j < |group|
      ensures Precedes(tails[i].at, tails[j].at)
    {
      SameHead(group[i].at, group[j].at);
    }
    forall i | 0 <= i < |group|
      ensures Named(text, tails[i].at) && [name] + tails[i].at == group[i].at
    {
      assert forall k :: 0 <= k < |tails[i].at| ==> tails[i].at[k] == group[i].at[k + 1];
    }
  }

  lemma FolderVisits(text: Utf8, entries: seq<Entry>)
    requires Sorted(text, entries)
    ensures TreeOk(Folder(entries)) && Visit(text, Folder(entries)) == VisitEach(text, entries)
  {
    NameOrder();
    SortSorted(NameLess(), NameOf, entries);
    assert InNameOrder(entries) == entries;
  }

  /** The node that the leaves below one name come from. */
  lemma {:induction false} RebuildNode(text: Utf8, group: seq<Leaf>, name: Bytes) returns (node: Node)
    requires Walked(text, group) && group != []
    requires forall i :: 0 <= i < |group| ==> group[i].at != [] && group[i].at[0] == name
    ensures TreeOk(node) && Visit(text, node) == Some(Tails(group))
    decreases Total(group), 0
  {
    TailsWalked(text, group, name);
    TotalTails(group);
    if |group[0].at| == 1 {
      assert |group| == 1 by {
        if |group| > 1 {
          SameHead(group[0].at, group[1].at);
        }
      }
      node := Regular(group[0].content);
      assert Tails(group) == [Leaf([], group[0].content)];
    } else {
      forall j | 0 <= j < |group|
        ensures Tails(group)[j].at != []
      {
        if j > 0 {
          SameHead(group[0].at, group[j].at);
        }
      }
      var entries := Rebuild(text, Tails(group));
      FolderVisits(text, entries);
      node := Folder(entries);
    }
  }

  lemma ConsSorted(text: Utf8, first: Entry, rest: seq<Entry>)
    requires Sorted(text, rest) && Sorted(text, [first])
    requires rest != [] ==> NameLess()(first.name, rest[0].name)
    ensures Sorted(text, [first] + rest)
  {
    NameOrder();
    var all := [first] + rest;
    forall j | 0 <= j < |rest|
      ensures NameLess()(first.name, rest[j].name)
    {
      assert j > 0 ==> NameLess()(NameOf(rest[0]), NameOf(rest[j]));
    }
    forall i, j | 0 <= i < j < |all|
      ensures NameLess()(NameOf(all[i]), NameOf(all[j]))
    {
      assert all[j] == rest[j - 1] && (i > 0 ==> all[i] == rest[i - 1]);
    }
  }

  /** The leaves below the first name, and the others. */
  lemma HeadGroup(text: Utf8, leaves: seq<Leaf>) returns (group: seq<Leaf>, rest: seq<Leaf>)
    requires Walked(text, leaves) && leaves != [] && forall i :: 0 <= i < |leaves| ==> leaves[i].at != []
    ensures leaves == group + rest && group != [] && Walked(text, group) && Walked(text, rest)
    ensures Total(group) <= Total(leaves) && Total(rest) < Total(leaves)
    ensures forall i :: 0 <= i < |group| ==> group[i].at != [] && group[i].at[0] == leaves[0].at[0]
    ensures forall i :: 0 <= i < |rest| ==> rest[i].at != []
    ensures NameOk(leaves[0].at[0]) && text(leaves[0].at[0])
    ensures rest != [] ==> NameLess()(leaves[0].at[0], rest[0].at[0])
  {
    var n := Run(leaves, leaves[0].at[0]);
    group, rest := leaves[..n], leaves[n..];
    assert leaves == group + rest && group[0] == leaves[0];
    TotalConcat(group, rest);
    assert Named(text, leaves[0].at);
    if rest != [] {
      assert Precedes(leaves[0].at, leaves[n].at);
    }
  }

  lemma VisitCons(text: Utf8, first: Entry, rest: seq<Entry>)
    ensures VisitEach(text, [first] + rest) ==
            if Visit(text, first.node).None? || VisitEach(text, rest).None? then None
            else Some(Below(first.name, Visit(text, first.node).value) + VisitEach(text, rest).value)
  {
    assert ([first] + rest)[1..] == rest;
  }

  /** Directory entries that the walk reads as these leaves. */
  lemma {:induction false} Rebuild(text: Utf8, leaves: seq<Leaf>) returns (entries: seq<Entry>)
    requires Walked(text, leaves) && forall i :: 0 <= i < |leaves| ==> leaves[i].at != []
    ensures Sorted(text, entries) && VisitEach(text, entries) == Some(leaves)
    ensures entries != [] ==> leaves != [] && entries[0].name == leaves[0].at[0]
    decreases Total(leaves), 1
  {
    if leaves == [] {
      entries := [];
    } else {
      var name := leaves[0].at[0];
      var group, rest := HeadGroup(text, leaves);
      var node := RebuildNode(text, group, name);
      var more := Rebuild(text, rest);
      TailsWalked(text, group, name);
      ConsSorted(text, Entry(name, node), more);
      entries := [Entry(name, node)] + more;
      VisitCons(text, Entry(name, node), more);
    }
  }

  // -------------------------------------------------------- paths and their names

  /** The names in a path. */
  function Components(path: Bytes, part: Bytes): (parts: seq<Bytes>)
    ensures parts != []
  {
    if path == [] then [part]
    else if path[0] == SLASH then [part] + Components(path[1..], [])
    else Components(path[1..], part + [path[0]])
  }

  lemma {:induction false} JoinComponents(path: Bytes, part: Bytes)
    ensures Join(Components(path, part)) == part + path
  {
    if path == [] {
    } else if path[0] == SLASH {
      JoinComponents(path[1..], []);
      var rest := Components(path[1..], []);
      assert ([part] + rest)[1..] == rest;
      assert part + [SLASH] + ([] + path[1..]) == part + path;
    } else {
      JoinComponents(path[1..], part + [path[0]]);
      assert (part + [path[0]]) + path[1..] == part + path;
    }
  }

  lemma {:induction false} ReadName(name: Bytes, rest: Bytes, part: Bytes)
    requires SLASH !in name
    ensures Components(name + rest, part) == Components(rest, part + name)
  {
    if name == [] {
      assert name + rest == rest && part + name == part;
    } else {
      assert (name + rest)[1..] == name[1..] + rest;
      ReadName(name[1..], rest, part + [name[0]]);
      assert (part + [name[0]]) + name[1..] == part + name;
    }
  }

  lemma {:induction false} ComponentsJoin(at: seq<Bytes>)
    requires at != [] && forall i :: 0 <= i < |at| ==> SLASH !in at[i]
    ensures Components(Join(at), []) == at
  {
    if |at| == 1 {
      ReadName(at[0], [], []);
      assert at[0] + [] == at[0] && [] + at[0] == at[0];
    } else {
      var rest := [SLASH] + Join(at[1..]);
      ComponentsJoin(at[1..]);
      ReadName(at[0], rest, []);
      assert Join(at) == at[0] + rest && rest[1..] == Join(at[1..]) && [] + at[0] == at[0];
    }
  }

  lemma {:induction false} JoinNulFree(at: seq<Bytes>)
    requires forall i :: 0 <= i < |at| ==> NulFree(at[i])
    ensures NulFree(Join(at))
  {
    if |at| > 1 {
      JoinNulFree(at[1..]);
    }
  }

  // ----------------------------------------------------------- the listings it makes

  /** The rule that the walk of a directory follows. */
  function DirectoryWalk(text: Utf8): Walk {
    Walk(path => Named(text, Components(path, [])), (a, b) => Precedes(Components(a, []), Components(b, [])))
  }

  lemma WalkPathsNulFree(text: Utf8)
    ensures NulFreePaths(DirectoryWalk(text))
  {
    forall path | DirectoryWalk(text).path(path)
      ensures NulFree(path)
    {
      JoinComponents(path, []);
      JoinNulFree(Components(path, []));
      assert [] + path == path;
    }
  }

  lemma FileNames(text: Utf8, leaf: Leaf)
    requires Named(text, leaf.at) && leaf.at != []
    ensures Components(Join([] + leaf.at), []) == leaf.at
  {
    assert [] + leaf.at == leaf.at;
    ComponentsJoin(leaf.at);
  }

  lemma TreeLists(text: Utf8, root: Node)
    requires TreeOk(root) && PackageFiles(text, root).Some?
    ensures Listing(DirectoryWalk(text), PackageFiles(text, root).value)
  {
    var leaves, files := Visit(text, root).value, PackageFiles(text, root).value;
    VisitWalked(text, root);
    forall i | 0 <= i < |files|
      ensures Components(files[i].path, []) == leaves[i].at
    {
      FileNames(text, leaves[i]);
    }
  }

  lemma ListingHasTree(text: Utf8, files: seq<File>) returns (root: Node)
    requires Listing(DirectoryWalk(text), files)
    ensures TreeOk(root) && PackageFiles(text, root) == Some(files)
  {
    var leaves := seq(|files|, i requires 0 <= i < |files| => Leaf(Components(files[i].path, []), files[i].content));
    forall i | 0 <= i < |files|
      ensures Join([] + leaves[i].at) == files[i].path
    {
      JoinComponents(files[i].path, []);
      assert [] + leaves[i].at == leaves[i].at && [] + files[i].path == files[i].path;
    }
    var entries := Rebuild(text, leaves);
    FolderVisits(text, entries);
    root := Folder(entries);
    assert FilesAt([], leaves) == files;
  }

  /** The rule describes the walk exactly: what walks of valid trees list is what follows
      the rule. */
  lemma WalkExactly(text: Utf8, files: seq<File>)
    ensures Listing(DirectoryWalk(text), files) <==>
            exists root :: TreeOk(root) && PackageFiles(text, root) == Some(files)
  {
    if Listing(DirectoryWalk(text), files) {
      var root := ListingHasTree(text, files);
    } else if root :| TreeOk(root) && PackageFiles(text, root) == Some(files) {
      TreeLists(text, root);
    }
  }

  /** Another package with other files has the same identity input. */
  ghost predicate SharesBytes(text: Utf8, files: seq<File>) {
    exists other :: TreeOk(other) && PackageFiles(text, other).Some? && PackageFiles(text, other).value != files
                    && ListingFrame(PackageFiles(text, other).value) == ListingFrame(files)
  }

  /** The packages whose bytes a package with other files has too. */
  lemma PackageCollides(text: Utf8, root: Node)
    requires TreeOk(root) && PackageFiles(text, root).Some?
    ensures var files := PackageFiles(text, root).value;
            SharesBytes(text, files) <==>
            || |files| >= 2
            || (|files| == 1 && exists i, j :: HidesAt(DirectoryWalk(text), files[0], i, j))
  {
    var files := PackageFiles(text, root).value;
    TreeLists(text, root);
    WalkPathsNulFree(text);
    CollidesExactly(DirectoryWalk(text), files);
    if Collides(DirectoryWalk(text), files) {
      var other :| Listing(DirectoryWalk(text), other) && other != files && ListingFrame(other) == ListingFrame(files);
      var tree := ListingHasTree(text, other);
    }
    if SharesBytes(text, files) {
      var other :| TreeOk(other) && PackageFiles(text, other).Some? && PackageFiles(text, other).value != files
                   && ListingFrame(PackageFiles(text, other).value) == ListingFrame(files);
      TreeLists(text, other);
    }
  }
}
