// The names that carry semantic handles in one file: the fixpoint of
// `check_semantic_api_boundary` in scripts/arch/arch_guard.py.

module TaintedNames {

  /** A use or a type alias: the names it introduces from its body. */
  datatype Item = Item(body: string, names: set<string>)

  /** How bodies are searched: for a semantic path or handle, and for a whole word. */
  datatype Search = Search(direct: string -> bool, word: (string, string) -> bool)

  predicate Mentions(s: Search, body: string, tainted: set<string>) {
    s.direct(body) || exists name :: name in tainted && s.word(name, body)
  }

  /** Every item that mentions a tainted name introduces tainted names only. */
  ghost predicate Closed(s: Search, items: seq<Item>, tainted: set<string>) {
    forall i :: 0 <= i < |items| && Mentions(s, items[i].body, tainted) ==> items[i].names <= tainted
  }

  /** Contained in every closed set. */
  ghost predicate Least(s: Search, items: seq<Item>, tainted: set<string>) {
    forall other :: Closed(s, items, other) ==> tainted <= other
  }

  ghost function AllNames(items: seq<Item>): set<string> {
    set i, name | 0 <= i < |items| && name in items[i].names :: name
  }

  lemma MentionsMore(s: Search, body: string, tainted: set<string>, other: set<string>)
    requires Mentions(s, body, tainted) && tainted <= other
    ensures Mentions(s, body, other)
  {
  }

  lemma LeastStep(s: Search, items: seq<Item>, tainted: set<string>, item: Item)
    requires Least(s, items, tainted) && item in items && Mentions(s, item.body, tainted)
    ensures Least(s, items, tainted + item.names)
  {
    forall other | Closed(s, items, other)
      ensures tainted + item.names <= other
    {
      MentionsMore(s, item.body, tainted, other);
    }
  }

  /** One pass over some of the items; unchanged names mean that nothing was missing. */
  method Pass(s: Search, items: seq<Item>, ghost all: seq<Item>, before: set<string>)
    returns (tainted: set<string>, changed: bool)
    requires Least(s, all, before) && before <= AllNames(all) && forall item :: item in items ==> item in all
    ensures Least(s, all, tainted) && before <= tainted <= AllNames(all)
    ensures changed <==> tainted != before
    ensures !changed ==> Closed(s, items, before)
  {
    tainted, changed := before, false;
    for i := 0 to |items|
      invariant Least(s, all, tainted) && before <= tainted <= AllNames(all)
      invariant changed <==> tainted != before
      invariant !changed ==> Closed(s, items[..i], before)
    {
      assert items[i] in items;
      if Mentions(s, items[i].body, tainted) {
        LeastStep(s, all, tainted, items[i]);
        var size := |tainted|;
        var more := tainted + items[i].names;
        GrowthShows(tainted, items[i].names);
        changed := changed || |more| != size;
        tainted := more;
      }
    }
    assert items[..|items|] == items;
  }

  lemma {:induction false} Subset(a: set<string>, b: set<string>)
    requires a <= b
    ensures |a| <= |b| && (|a| == |b| ==> a == b)
  {
    if a != {} {
      var x :| x in a;
      Subset(a - {x}, b - {x});
      assert a == (a - {x}) + {x} && b == (b - {x}) + {x};
    }
  }

  /** Comparing sizes shows whether an update added a name. */
  lemma GrowthShows(tainted: set<string>, names: set<string>)
    ensures |tainted + names| == |tainted| <==> names <= tainted
  {
    Subset(tainted, tainted + names);
    if names <= tainted {
      assert tainted + names == tainted;
    }
  }

  /** The least set of names closed under uses and type aliases. */
  method Tainted(s: Search, uses: seq<Item>, aliases: seq<Item>) returns (tainted: set<string>)
    ensures Closed(s, uses + aliases, tainted) && Least(s, uses + aliases, tainted)
  {
    ghost var all := uses + aliases;
    tainted := {};
    var changed := true;
    while changed
      invariant Least(s, all, tainted) && tainted <= AllNames(all)
      invariant !changed ==> Closed(s, uses, tainted) && Closed(s, aliases, tainted)
      decreases AllNames(all) - tainted, changed
    {
      ghost var before := tainted;
      var byUses, byAliases;
      tainted, byUses := Pass(s, uses, all, tainted);
      tainted, byAliases := Pass(s, aliases, all, tainted);
      changed := byUses || byAliases;
      assert changed ==> before < tainted;
    }
  }

  /** The result does not depend on the order in which items are scanned. */
  lemma OrderDoesNotMatter(s: Search, a: seq<Item>, b: seq<Item>, x: set<string>, y: set<string>)
    requires forall item :: item in a <==> item in b
    requires Closed(s, a, x) && Least(s, a, x) && Closed(s, b, y) && Least(s, b, y)
    ensures x == y
  {
    forall tainted
      ensures Closed(s, a, tainted) <==> Closed(s, b, tainted)
    {
      forall i | 0 <= i < |a| && Closed(s, b, tainted) && Mentions(s, a[i].body, tainted)
        ensures a[i].names <= tainted
      {
        assert a[i] in b;
      }
      forall i | 0 <= i < |b| && Closed(s, a, tainted) && Mentions(s, b[i].body, tainted)
        ensures b[i].names <= tainted
      {
        assert b[i] in a;
      }
    }
  }

  datatype Link = Link(item: Item, name: string)

  /** A name is tainted exactly when a chain of items leads to it from a semantic path
      or handle. */
  ghost predicate Chain(s: Search, items: seq<Item>, chain: seq<Link>) {
    && chain != []
    && (forall k :: 0 <= k < |chain| ==> chain[k].item in items && chain[k].name in chain[k].item.names)
    && s.direct(chain[0].item.body)
    && forall j, k :: 0 <= j < k < |chain| && k == j + 1 ==> s.direct(chain[k].item.body) || s.word(chain[j].name, chain[k].item.body)
  }

  lemma {:induction false} ChainInside(s: Search, items: seq<Item>, tainted: set<string>, chain: seq<Link>)
    requires Closed(s, items, tainted) && Chain(s, items, chain)
    ensures chain[|chain| - 1].name in tainted
  {
    var n := |chain| - 1;
    var item := chain[n].item;
    if n > 0 {
      assert Chain(s, items, chain[..n]);
      ChainInside(s, items, tainted, chain[..n]);
      assert chain[..n][n - 1] == chain[n - 1];
      assert s.direct(item.body) || s.word(chain[n - 1].name, item.body);
    }
    assert Mentions(s, item.body, tainted);
    var i :| 0 <= i < |items| && items[i] == item;
  }

  ghost predicate Derivable(s: Search, items: seq<Item>, name: string) {
    exists chain: seq<Link> :: Chain(s, items, chain) && chain[|chain| - 1].name == name
  }

  lemma DerivableStep(s: Search, items: seq<Item>, item: Item, from: string, name: string)
    requires item in items && name in item.names
    requires s.direct(item.body) || (Derivable(s, items, from) && s.word(from, item.body))
    ensures Derivable(s, items, name)
  {
    if s.direct(item.body) {
      assert Chain(s, items, [Link(item, name)]);
    } else {
      var chain: seq<Link> :| Chain(s, items, chain) && chain[|chain| - 1].name == from;
      var longer := chain + [Link(item, name)];
      forall j, k | 0 <= j < k < |longer| && k == j + 1
        ensures s.direct(longer[k].item.body) || s.word(longer[j].name, longer[k].item.body)
      {
        assert k < |chain| ==> longer[j] == chain[j] && longer[k] == chain[k];
      }
      assert Chain(s, items, longer);
    }
  }

  lemma TaintedExactly(s: Search, items: seq<Item>, tainted: set<string>, name: string)
    requires Closed(s, items, tainted) && Least(s, items, tainted)
    ensures name in tainted <==> Derivable(s, items, name)
  {
    if chain: seq<Link> :| Chain(s, items, chain) && chain[|chain| - 1].name == name {
      ChainInside(s, items, tainted, chain);
    }
    var derivable := set other | other in tainted && Derivable(s, items, other);
    forall i | 0 <= i < |items| && Mentions(s, items[i].body, derivable)
      ensures items[i].names <= derivable
    {
      MentionsMore(s, items[i].body, derivable, tainted);
      forall other | other in items[i].names
        ensures Derivable(s, items, other)
      {
        if !s.direct(items[i].body) {
          var from :| from in derivable && s.word(from, items[i].body);
          DerivableStep(s, items, items[i], from, other);
        } else {
          DerivableStep(s, items, items[i], "", other);
        }
      }
    }
    assert Closed(s, items, derivable);
  }
}
