/**
 * merge_dicts and read_tomls of buildcv.py: the deep merge of one parsed
 * TOML document into the configuration built so far, and the fold of
 * several documents into one configuration.
 */
module TomlMerge {
  import opened Results
  import opened TomlData

  /**
   * merge_dicts raises a TypeError when a non-empty table of `src` meets,
   * at the same key path of `dst`, a value that is not a table: the
   * recursive call then assigns into, or indexes, a non-dict.
   */
  predicate Clash(src: map<string, Toml>, dst: map<string, Toml>)
    decreases Table(src), 1
  {
    exists k :: k in src && ClashAt(src, dst, k)
  }

  predicate ClashAt(src: map<string, Toml>, dst: map<string, Toml>, k: string)
    requires k in src
    decreases Table(src), 0
  {
    src[k].Table? && k in dst &&
    if dst[k].Table? then Clash(src[k].entries, dst[k].entries) else src[k].entries != map[]
  }

  /**
   * The new contents of `dst` after a merge without a clash: values of
   * `src` that are not tables replace those of `dst`, tables of `src` are
   * merged into the tables of `dst` (into a new empty table when `dst` has
   * none), and the keys `src` does not name keep their values.
   */
  function MergeOk(src: map<string, Toml>, dst: map<string, Toml>): (r: map<string, Toml>)
    ensures r.Keys == src.Keys + dst.Keys
    decreases Table(src)
  {
    map k | k in src.Keys + dst.Keys ::
      if k !in src then dst[k]
      else if !src[k].Table? then src[k]
      else if k in dst && !dst[k].Table? then dst[k]
      else Table(MergeOk(src[k].entries, if k in dst then dst[k].entries else map[]))
  }

  /** The contents of a table `dst` merges into at key `k` of `src`. */
  function Below(dst: map<string, Toml>, k: string): map<string, Toml> {
    if k in dst && dst[k].Table? then dst[k].entries else map[]
  }

  /**
   * The contents of `dst` once merge_dicts has handled the keys `done` of
   * `src`: merged values there, the original values everywhere else.
   */
  function Partial(src: map<string, Toml>, dst: map<string, Toml>, done: set<string>): (r: map<string, Toml>)
    requires done <= src.Keys
    ensures r.Keys == dst.Keys + done
  {
    map k | k in dst.Keys + done :: if k in done then MergeOk(src, dst)[k] else dst[k]
  }

  /** Handling one more key replaces exactly the value at that key. */
  lemma PartialStep(src: map<string, Toml>, dst: map<string, Toml>, done: set<string>, k: string)
    requires done <= src.Keys && k in src && k !in done
    ensures Partial(src, dst, done + {k}) == Partial(src, dst, done)[k := MergeOk(src, dst)[k]]
  {
  }

  lemma UpdateTwice<K, V>(m: map<K, V>, k: K, a: V, b: V)
    ensures m[k := a][k := b] == m[k := b]
  {
  }

  /** Once every key of `src` is handled, `dst` holds the merge. */
  lemma PartialDone(src: map<string, Toml>, dst: map<string, Toml>)
    ensures Partial(src, dst, src.Keys) == MergeOk(src, dst)
  {
  }

  /** The merged value at a key of `src`. */
  lemma MergeOkAt(src: map<string, Toml>, dst: map<string, Toml>, k: string)
    requires k in src
    ensures MergeOk(src, dst)[k] ==
      if !src[k].Table? then src[k]
      else if k in dst && !dst[k].Table? then dst[k]
      else Table(MergeOk(src[k].entries, Below(dst, k)))
  {
  }

  /**
   * merge_dicts(src, dst): a loop over the items of `src` that assigns
   * values into `dst` and recurses into nested dicts. The nested dicts of
   * a configuration are reachable from one key path only, so each is
   * modelled as the table value stored at that key.
   */
  method MergeDicts(src: map<string, Toml>, dst: Dict) returns (outcome: Result<(), PyError>)
    modifies dst
    ensures outcome.Ok? <==> !Clash(src, old(dst.entries))
    ensures outcome.Err? ==> outcome.error == TypeError
    ensures outcome.Ok? ==> dst.entries == MergeOk(src, old(dst.entries))
    decreases Table(src)
  {
    ghost var dst0 := dst.entries;
    var keys := src.Keys;
    ghost var done: set<string> := {};
    while keys != {}
      invariant keys !! done && keys + done == src.Keys
      invariant forall k :: k in done ==> !ClashAt(src, dst0, k)
      invariant dst.entries == Partial(src, dst0, done)
      decreases keys
    {
      var k :| k in keys;
      ghost var before := dst.entries;
      assert k in before <==> k in dst0;
      assert k in before ==> before[k] == dst0[k];
      MergeOkAt(src, dst0, k);
      var v := src[k];
      if v.Table? {
        var created := k !in dst.entries;
        if created {
          dst.entries := dst.entries[k := Table(map[])];
        }
        ghost var mid := dst.entries;
        var current := dst.entries[k];
        if !current.Table? {
          if v.entries != map[] {
            assert ClashAt(src, dst0, k);
            return Err(TypeError);
          }
          assert dst.entries == before;
        } else {
          var sub := new Dict(current.entries);
          var res := MergeDicts(v.entries, sub);
          if res.Err? {
            assert ClashAt(src, dst0, k);
            return res;
          }
          assert dst.entries == mid;
          dst.entries := dst.entries[k := Table(sub.entries)];
          if created {
            UpdateTwice(before, k, Table(map[]), Table(sub.entries));
          }
        }
      } else {
        dst.entries := dst.entries[k := v];
      }
      PartialStep(src, dst0, done, k);
      keys := keys - {k};
      done := done + {k};
    }
    PartialDone(src, dst0);
    return Ok(());
  }

  /** Merging into an empty dict builds a copy of `src`. */
  lemma {:induction false} MergeIntoEmpty(src: map<string, Toml>)
    ensures !Clash(src, map[])
    ensures MergeOk(src, map[]) == src
    decreases Table(src)
  {
    forall k | k in src && src[k].Table?
      ensures MergeOk(src, map[])[k] == src[k]
    {
      MergeIntoEmpty(src[k].entries);
    }
  }

  /**
   * Every value of `src` that is not a table ends up at the same key path
   * of the merged dict.
   */
  lemma {:induction false} MergePlacesLeaf(src: map<string, Toml>, dst: map<string, Toml>, path: seq<string>)
    requires !Clash(src, dst)
    requires At(Table(src), path).Some? && !At(Table(src), path).value.Table?
    ensures At(Table(MergeOk(src, dst)), path) == At(Table(src), path)
    decreases |path|
  {
    var k := path[0];
    if src[k].Table? && !(k in dst && !dst[k].Table?) {
      assert !ClashAt(src, dst, k);
      MergePlacesLeaf(src[k].entries, Below(dst, k), path[1..]);
    }
  }

  /** `src` puts nothing at `path` nor at any key path above it. */
  predicate Avoids(src: map<string, Toml>, path: seq<string>)
    decreases |path|
  {
    path != [] && (path[0] !in src || (src[path[0]].Table? && Avoids(src[path[0]].entries, path[1..])))
  }

  /** Whatever `dst` holds at a key path `src` does not reach is left as it was. */
  lemma {:induction false} MergeKeepsAvoided(src: map<string, Toml>, dst: map<string, Toml>, path: seq<string>)
    requires !Clash(src, dst)
    requires Avoids(src, path)
    ensures At(Table(MergeOk(src, dst)), path) == At(Table(dst), path)
    decreases |path|
  {
    var k := path[0];
    if k in src && !(k in dst && !dst[k].Table?) {
      assert !ClashAt(src, dst, k);
      MergeKeepsAvoided(src[k].entries, Below(dst, k), path[1..]);
    }
  }

  /** Merging the same `src` a second time changes nothing. */
  lemma {:induction false} MergeIdempotent(src: map<string, Toml>, dst: map<string, Toml>)
    requires !Clash(src, dst)
    ensures !Clash(src, MergeOk(src, dst))
    ensures MergeOk(src, MergeOk(src, dst)) == MergeOk(src, dst)
    decreases Table(src)
  {
    var merged := MergeOk(src, dst);
    forall k | k in src && src[k].Table? && !(k in dst && !dst[k].Table?)
      ensures !Clash(src[k].entries, merged[k].entries)
      ensures MergeOk(src[k].entries, merged[k].entries) == merged[k].entries
    {
      assert !ClashAt(src, dst, k);
      MergeIdempotent(src[k].entries, Below(dst, k));
    }
    assert forall k :: k in src ==> !ClashAt(src, merged, k);
  }

  // ---------------------------------------------------------------------
  // read_tomls
  // ---------------------------------------------------------------------

  /** The configuration after merging the documents in order, or the first TypeError. */
  function Fold(docs: seq<map<string, Toml>>): (r: Result<map<string, Toml>, PyError>)
    ensures r.Ok? ==> forall i :: 0 <= i < |docs| ==> docs[i].Keys <= r.value.Keys
  {
    if docs == [] then Ok(map[])
    else match Fold(docs[..|docs| - 1])
      case Err(e) => Err(e)
      case Ok(config) =>
        var doc := docs[|docs| - 1];
        if Clash(doc, config) then Err(TypeError)
        else
          assert forall i :: 0 <= i < |docs| - 1 ==> docs[..|docs| - 1][i] == docs[i];
          Ok(MergeOk(doc, config))
  }

  const NoTomls := "No tomls provided to read_tomls"

  /** read_tomls: the merged configuration, and a RuntimeError when it is empty. */
  function ReadTomlsOf(docs: seq<map<string, Toml>>): Result<map<string, Toml>, PyError> {
    match Fold(docs)
    case Err(e) => Err(e)
    case Ok(config) => if config == map[] then Err(RuntimeError(NoTomls)) else Ok(config)
  }

  /**
   * read_tomls, with the documents tomllib reads from the paths given in
   * order: each is merged into one configuration dict.
   */
  method ReadTomls(docs: seq<map<string, Toml>>) returns (r: Result<map<string, Toml>, PyError>)
    ensures r == ReadTomlsOf(docs)
  {
    var config := new Dict(map[]);
    for i := 0 to |docs|
      invariant Fold(docs[..i]) == Ok(config.entries)
    {
      assert docs[..i + 1][..i] == docs[..i];
      var outcome := MergeDicts(docs[i], config);
      if outcome.Err? {
        assert Fold(docs[..i + 1]) == Err(TypeError);
        FoldErrorSticks(docs, i + 1);
        return Err(outcome.error);
      }
    }
    assert docs[..|docs|] == docs;
    if config.entries == map[] {
      return Err(RuntimeError(NoTomls));
    }
    return Ok(config.entries);
  }

  /** Once a merge fails, the later documents are not read. */
  lemma {:induction false} FoldErrorSticks(docs: seq<map<string, Toml>>, n: nat)
    requires n <= |docs| && Fold(docs[..n]).Err?
    ensures Fold(docs) == Fold(docs[..n])
    decreases |docs|
  {
    if n < |docs| {
      var prefix := docs[..|docs| - 1];
      assert prefix[..n] == docs[..n];
      FoldErrorSticks(prefix, n);
    } else {
      assert docs[..n] == docs;
    }
  }

  /** The merged configuration is empty exactly when every document is. */
  lemma {:induction false} FoldEmpty(docs: seq<map<string, Toml>>)
    ensures Fold(docs) == Ok(map[]) <==> forall i :: 0 <= i < |docs| ==> docs[i] == map[]
    decreases |docs|
  {
    if docs != [] {
      var prefix := docs[..|docs| - 1];
      FoldEmpty(prefix);
      assert forall i :: 0 <= i < |prefix| ==> prefix[i] == docs[i];
    }
  }

  /** read_tomls raises its RuntimeError exactly when every document is empty. */
  lemma ReadTomlsEmpty(docs: seq<map<string, Toml>>)
    ensures ReadTomlsOf(docs) == Err(RuntimeError(NoTomls)) <==> forall i :: 0 <= i < |docs| ==> docs[i] == map[]
  {
    FoldEmpty(docs);
    FoldRaisesTypeError(docs);
  }

  /** The merges raise nothing but TypeError. */
  lemma {:induction false} FoldRaisesTypeError(docs: seq<map<string, Toml>>)
    ensures Fold(docs).Err? ==> Fold(docs).error == TypeError
    decreases |docs|
  {
    if docs != [] {
      FoldRaisesTypeError(docs[..|docs| - 1]);
    }
  }

  /** A single document reads back as itself. */
  lemma ReadOneToml(doc: map<string, Toml>)
    ensures Fold([doc]) == Ok(doc)
  {
    assert [doc][..0] == [];
    MergeIntoEmpty(doc);
  }

  /**
   * Later documents win: a value that is not a table at some key path of
   * document j is the configuration's value there when no later document
   * reaches that path.
   */
  lemma {:induction false} LaterDocumentWins(docs: seq<map<string, Toml>>, j: nat, path: seq<string>)
    requires j < |docs| && Fold(docs).Ok?
    requires At(Table(docs[j]), path).Some? && !At(Table(docs[j]), path).value.Table?
    requires forall i :: j < i < |docs| ==> Avoids(docs[i], path)
    ensures At(Table(Fold(docs).value), path) == At(Table(docs[j]), path)
    decreases |docs|
  {
    var prefix := docs[..|docs| - 1];
    var last := docs[|docs| - 1];
    var before := Fold(prefix).value;
    if j == |docs| - 1 {
      MergePlacesLeaf(last, before, path);
    } else {
      assert forall i :: j < i < |prefix| ==> prefix[i] == docs[i];
      LaterDocumentWins(prefix, j, path);
      MergeKeepsAvoided(last, before, path);
    }
  }
}
