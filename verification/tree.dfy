/**
  The SharePoint folder tree as the script sees it, and the depth-first enumeration of
  `collect_files_recursive`. A folder's children arrive as a chain of pages (one page per
  `@odata.nextLink` hop); here the chain is already fetched and kept in order.
*/
module Tree {
  import opened Wrappers
  import Paths

  /**
    A drive item. The script tests for the `folder` facet first and the `file` facet second,
    so an item carrying both is a folder; items with neither facet are skipped (`Other`).
    A missing `name` reads as "" and a missing download URL as `None`.
  */
  datatype Item =
    | Folder(id: string, name: string, pages: seq<Page>)
    | File(id: string, name: string, downloadUrl: Option<string>)
    | Other

  /** One page of a folder's children listing. */
  datatype Page = Page(items: seq<Item>)

  /** One record of `all_files`: id, name, path relative to the traversal root, download URL. */
  datatype FileEntry = FileEntry(id: string, name: string, relPath: string, downloadUrl: Option<string>)

  /** The relative path handed to a subfolder: `base/name`, or `name` at the top level. */
  function SubRel(base: string, name: string): string {
    if base != "" then base + "/" + name else name
  }

  // ---------------------------------------------------------------------------
  // collect_files_recursive
  // ---------------------------------------------------------------------------

  /** Every file under a folder whose listing is `pages`, files being recorded under `base`. */
  function CollectPages(pages: seq<Page>, base: string): seq<FileEntry>
    decreases pages
  {
    if |pages| == 0 then []
    else CollectItems(pages[0].items, base) + CollectPages(pages[1..], base)
  }

  /** The files contributed by one page, child by child. */
  function CollectItems(items: seq<Item>, base: string): seq<FileEntry>
    decreases items
  {
    if |items| == 0 then []
    else CollectChild(items[0], base) + CollectItems(items[1..], base)
  }

  /** A subfolder is walked at once; a file gives one entry; anything else gives none. */
  function CollectChild(it: Item, base: string): seq<FileEntry>
    decreases it
  {
    match it
    case Folder(_, name, pages) => CollectPages(pages, SubRel(base, name))
    case File(id, name, url) => [FileEntry(id, name, base, url)]
    case Other => []
  }

  // ---------------------------------------------------------------------------
  // An independent count of the files in a subtree
  // ---------------------------------------------------------------------------

  function FileCountPages(pages: seq<Page>): nat
    decreases pages
  {
    if |pages| == 0 then 0 else FileCountItems(pages[0].items) + FileCountPages(pages[1..])
  }

  function FileCountItems(items: seq<Item>): nat
    decreases items
  {
    if |items| == 0 then 0 else FileCountChild(items[0]) + FileCountItems(items[1..])
  }

  function FileCountChild(it: Item): nat
    decreases it
  {
    match it
    case Folder(_, _, pages) => FileCountPages(pages)
    case File(_, _, _) => 1
    case Other => 0
  }

  /** Enumeration emits exactly one entry per file node of the subtree, whatever the base. */
  lemma {:induction false} CollectPagesCount(pages: seq<Page>, base: string)
    ensures |CollectPages(pages, base)| == FileCountPages(pages)
    decreases pages
  {
    if |pages| > 0 {
      CollectItemsCount(pages[0].items, base);
      CollectPagesCount(pages[1..], base);
    }
  }

  lemma {:induction false} CollectItemsCount(items: seq<Item>, base: string)
    ensures |CollectItems(items, base)| == FileCountItems(items)
    decreases items
  {
    if |items| > 0 {
      CollectChildCount(items[0], base);
      CollectItemsCount(items[1..], base);
    }
  }

  lemma {:induction false} CollectChildCount(it: Item, base: string)
    ensures |CollectChild(it, base)| == FileCountChild(it)
    decreases it
  {
    if it.Folder? {
      CollectPagesCount(it.pages, SubRel(base, it.name));
    }
  }

  // ---------------------------------------------------------------------------
  // Page order and depth-first splicing
  // ---------------------------------------------------------------------------

  /** All children of a folder, page after page. */
  function Children(pages: seq<Page>): seq<Item>
    decreases |pages|
  {
    if |pages| == 0 then [] else pages[0].items + Children(pages[1..])
  }

  /** Walking the listing concatenates what the single items give. */
  lemma {:induction false} CollectItemsAppend(a: seq<Item>, b: seq<Item>, base: string)
    ensures CollectItems(a + b, base) == CollectItems(a, base) + CollectItems(b, base)
    decreases |a|
  {
    if |a| > 0 {
      assert (a + b)[0] == a[0];
      assert (a + b)[1..] == a[1..] + b;
      CollectItemsAppend(a[1..], b, base);
    } else {
      assert a + b == b;
    }
  }

  /**
    Page boundaries are invisible: every page is consumed, in chain order, and the result is
    that of one listing holding all children.
  */
  lemma {:induction false} CollectPagesFlatten(pages: seq<Page>, base: string)
    ensures CollectPages(pages, base) == CollectItems(Children(pages), base)
    decreases |pages|
  {
    if |pages| > 0 {
      CollectPagesFlatten(pages[1..], base);
      CollectItemsAppend(pages[0].items, Children(pages[1..]), base);
    }
  }

  /**
    Depth-first order: the files below the subfolder at position `i` of a listing are spliced
    in exactly at that position, between the files before and after it.
  */
  lemma CollectItemsSplice(items: seq<Item>, i: nat, base: string)
    requires i < |items| && items[i].Folder?
    ensures CollectItems(items, base)
            == CollectItems(items[..i], base)
               + CollectPages(items[i].pages, SubRel(base, items[i].name))
               + CollectItems(items[i + 1..], base)
  {
    assert items == items[..i] + ([items[i]] + items[i + 1..]);
    CollectItemsAppend(items[..i], [items[i]] + items[i + 1..], base);
    CollectItemsAppend([items[i]], items[i + 1..], base);
    assert CollectItems([items[i]], base) == CollectChild(items[i], base) + CollectItems([], base);
  }

  // ---------------------------------------------------------------------------
  // Relative paths
  // ---------------------------------------------------------------------------

  /** The relative path reached from `base` by descending through the folders `names`. */
  function Extend(base: string, names: seq<string>): string
    decreases |names|
  {
    if |names| == 0 then base else Extend(SubRel(base, names[0]), names[1..])
  }

  /** Below a non-empty base, descending appends the folder names joined by "/". */
  lemma {:induction false} ExtendJoins(base: string, names: seq<string>)
    requires base != ""
    ensures Extend(base, names) == Paths.JoinSlash([base] + names)
    decreases |names|
  {
    if |names| == 0 {
      assert [base] + names == [base];
    } else {
      var next := base + "/" + names[0];
      ExtendJoins(next, names[1..]);
      if |names| == 1 {
        assert [base] + names == [base, names[0]];
        assert [base, names[0]][1..] == [names[0]];
      } else {
        Paths.JoinSlashCons(next, names[1..]);
        Paths.JoinSlashCons(base, names);
        Paths.JoinSlashCons(names[0], names[1..]);
        assert [names[0]] + names[1..] == names;
      }
    }
  }

  /**
    From the traversal root (base ""), the relative path of a file is the "/"-join of the
    folder names strictly between the root and the file; it is "" for top-level files.
  */
  lemma ExtendFromRoot(names: seq<string>)
    requires |names| == 0 || names[0] != ""
    ensures Extend("", names) == Paths.JoinSlash(names)
  {
    if |names| > 0 {
      ExtendJoins(names[0], names[1..]);
      assert [names[0]] + names[1..] == names;
    }
  }

  // ---------------------------------------------------------------------------
  // Which entries come out: exactly the files, each under its ancestors' path
  // ---------------------------------------------------------------------------

  /**
    `f` is a file child of the listing reached from `items` through the folders `names`
    (outermost first).
  */
  ghost predicate InItems(items: seq<Item>, names: seq<string>, f: Item)
    decreases |names|, 0
  {
    if |names| == 0 then f.File? && f in items
    else exists it :: it in items && it.Folder? && it.name == names[0] && InPages(it.pages, names[1..], f)
  }

  /** The same for a folder listed as `pages`. */
  ghost predicate InPages(pages: seq<Page>, names: seq<string>, f: Item)
    decreases |names|, 1
  {
    exists p :: p in pages && InItems(p.items, names, f)
  }

  /** The entry the script records for file `f` found under relative path `rel`. */
  function EntryOf(f: Item, rel: string): FileEntry
    requires f.File?
  {
    FileEntry(f.id, f.name, rel, f.downloadUrl)
  }

  /** Every entry is the record of a file of the subtree, under the path of its folders. */
  lemma {:induction false} CollectPagesSound(pages: seq<Page>, base: string, e: FileEntry)
    requires e in CollectPages(pages, base)
    ensures exists names, f :: InPages(pages, names, f) && f.File? && e == EntryOf(f, Extend(base, names))
    decreases pages
  {
    if e in CollectItems(pages[0].items, base) {
      CollectItemsSound(pages[0].items, base, e);
      var names, f :| InItems(pages[0].items, names, f) && f.File? && e == EntryOf(f, Extend(base, names));
      assert pages[0] in pages;
      assert InPages(pages, names, f);
    } else {
      CollectPagesSound(pages[1..], base, e);
      var names, f :| InPages(pages[1..], names, f) && f.File? && e == EntryOf(f, Extend(base, names));
      var p :| p in pages[1..] && InItems(p.items, names, f);
      assert p in pages;
      assert InPages(pages, names, f);
    }
  }

  lemma {:induction false} CollectItemsSound(items: seq<Item>, base: string, e: FileEntry)
    requires e in CollectItems(items, base)
    ensures exists names, f :: InItems(items, names, f) && f.File? && e == EntryOf(f, Extend(base, names))
    decreases items
  {
    if e in CollectChild(items[0], base) {
      CollectChildSound(items[0], base, e);
      var names, f :| InItems([items[0]], names, f) && f.File? && e == EntryOf(f, Extend(base, names));
      InItemsGrow([items[0]], items, names, f);
    } else {
      CollectItemsSound(items[1..], base, e);
      var names, f :| InItems(items[1..], names, f) && f.File? && e == EntryOf(f, Extend(base, names));
      InItemsGrow(items[1..], items, names, f);
    }
  }

  lemma {:induction false} CollectChildSound(it: Item, base: string, e: FileEntry)
    requires e in CollectChild(it, base)
    ensures exists names, f :: InItems([it], names, f) && f.File? && e == EntryOf(f, Extend(base, names))
    decreases it
  {
    match it
    case Folder(_, name, pages) =>
      var sub := SubRel(base, name);
      CollectPagesSound(pages, sub, e);
      var names, f :| InPages(pages, names, f) && f.File? && e == EntryOf(f, Extend(sub, names));
      var path := [name] + names;
      assert path[0] == name && path[1..] == names;
      assert it in [it];
      assert InItems([it], path, f);
      assert Extend(base, path) == Extend(sub, names);
    case File(_, _, _) =>
      assert InItems([it], [], it);
      assert e == EntryOf(it, Extend(base, []));
  }

  /** Reachability is kept when the listing gains children. */
  lemma InItemsGrow(small: seq<Item>, large: seq<Item>, names: seq<string>, f: Item)
    requires forall it :: it in small ==> it in large
    requires InItems(small, names, f)
    ensures InItems(large, names, f)
  {
    if |names| > 0 {
      var it :| it in small && it.Folder? && it.name == names[0] && InPages(it.pages, names[1..], f);
      assert it in large;
    }
  }

  /** Every file of the subtree gets an entry, under the path of the folders leading to it. */
  lemma {:induction false} CollectPagesComplete(pages: seq<Page>, base: string, names: seq<string>, f: Item)
    requires InPages(pages, names, f)
    ensures f.File? && EntryOf(f, Extend(base, names)) in CollectPages(pages, base)
    decreases |names|, 1
  {
    var p :| p in pages && InItems(p.items, names, f);
    CollectItemsComplete(p.items, base, names, f);
    var i :| 0 <= i < |pages| && pages[i] == p;
    CollectPagesHas(pages, i, base);
  }

  lemma {:induction false} CollectItemsComplete(items: seq<Item>, base: string, names: seq<string>, f: Item)
    requires InItems(items, names, f)
    ensures f.File? && EntryOf(f, Extend(base, names)) in CollectItems(items, base)
    decreases |names|, 0
  {
    if |names| == 0 {
      var i :| 0 <= i < |items| && items[i] == f;
      CollectItemsHas(items, i, base);
      assert CollectChild(f, base) == [EntryOf(f, base)];
    } else {
      var it :| it in items && it.Folder? && it.name == names[0] && InPages(it.pages, names[1..], f);
      CollectPagesComplete(it.pages, SubRel(base, names[0]), names[1..], f);
      var i :| 0 <= i < |items| && items[i] == it;
      CollectItemsHas(items, i, base);
    }
  }

  /** What child `i` contributes is part of the listing's entries. */
  lemma CollectItemsHas(items: seq<Item>, i: nat, base: string)
    requires i < |items|
    ensures forall e :: e in CollectChild(items[i], base) ==> e in CollectItems(items, base)
  {
    assert items == items[..i] + ([items[i]] + items[i + 1..]);
    CollectItemsAppend(items[..i], [items[i]] + items[i + 1..], base);
    CollectItemsAppend([items[i]], items[i + 1..], base);
    assert CollectItems([items[i]], base) == CollectChild(items[i], base) + CollectItems([], base);
  }

  /** What page `i` contributes is part of the folder's entries. */
  lemma {:induction false} CollectPagesHas(pages: seq<Page>, i: nat, base: string)
    requires i < |pages|
    ensures forall e :: e in CollectItems(pages[i].items, base) ==> e in CollectPages(pages, base)
    decreases i
  {
    if i > 0 {
      CollectPagesHas(pages[1..], i - 1, base);
    }
  }
}
