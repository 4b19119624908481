// The file that each kind of module item names.

module ReachabilityForms {
  import opened Wrappers
  import opened Reachability

  /** `#[path = "text"] mod name;` names a file beside the one that declares it. */
  lemma ExplicitItem(w: World, root: ModuleRoot, name: string, text: string, child: ModuleRoot)
    ensures var d := Declaration(name, Some(text));
            var path := w.resolve(w.join(w.parent(root.path), text));
            && !AmbiguousItem(w, root, d)
            && (Names(w, root, d, child) <==> path in w.files && child == ModuleRoot(path, w.moduleDir(path)))
  {
  }

  /** `mod name;` names `name.rs` or `name/mod.rs` in the directory of its file, of which
      there may be one: with both, the item is reported, and with neither, it names
      nothing. */
  lemma NamedItem(w: World, root: ModuleRoot, name: string, child: ModuleRoot)
    ensures var d := Declaration(name, None);
            var flat, nested := w.join(root.dir, name + ".rs"), w.join(w.join(root.dir, name), "mod.rs");
            && (AmbiguousItem(w, root, d) <==> flat in w.files && nested in w.files)
            && (flat in w.files && nested !in w.files ==>
                  (Names(w, root, d, child) <==> child == ModuleRoot(w.resolve(flat), w.moduleDir(w.resolve(flat)))))
            && (nested in w.files && flat !in w.files ==>
                  (Names(w, root, d, child) <==> child == ModuleRoot(w.resolve(nested), w.moduleDir(w.resolve(nested)))))
            && (flat !in w.files && nested !in w.files ==> !Names(w, root, d, child))
  {
  }
}
