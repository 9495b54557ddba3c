/**
 * apply_config of buildcv.py: builds the résumé record for one
 * configuration from the source record. The record is shallow-copied, so
 * the dicts directly under it are shared between the source and the copy,
 * and a dict update made through the copy is made to the source as well.
 */
module ApplyConfig {
  import opened Results
  import opened Decimal
  import opened TomlData

  /**
   * A value directly under the record: a TOML value no one else references,
   * a dict object that may be shared, or a list built from selected items.
   * Only a dict the copy creates itself is a `Plain` table; every dict of
   * the source record is a `Shared` object (see SourceDictsShared).
   */
  datatype Entry = Plain(t: Toml) | Shared(d: Dict) | Selected(items: seq<Toml>)

  /** The top-level record dict (the source data, or its copy). */
  class Record {
    var fields: map<string, Entry>

    constructor(fields: map<string, Entry>)
      ensures this.fields == fields
    {
      this.fields := fields;
    }
  }

  /** Every dict directly under the source record is a dict object, which the shallow copy shares. */
  predicate SourceDictsShared(fields: map<string, Entry>) {
    forall k :: k in fields ==> !(fields[k].Plain? && fields[k].t.Table?)
  }

  /** The contents of the shared dict objects. */
  type Heap = map<Dict, map<string, Toml>>

  function DictsIn(fields: map<string, Entry>): set<Dict> {
    set k | k in fields && fields[k].Shared? :: fields[k].d
  }

  ghost function Snapshot(ds: set<Dict>): Heap
    reads ds
  {
    map d | d in ds :: d.entries
  }

  function Contents(h: Heap, d: Dict): map<string, Toml> {
    if d in h then h[d] else map[]
  }

  /**
   * dict() of a list of [key, value] pairs; later pairs win. Anything else
   * in the list is not a pair dict() accepts here.
   */
  function PairsDict(items: seq<Toml>): Result<map<string, Toml>, PyError> {
    if items == [] then Ok(map[])
    else match PairsDict(items[..|items| - 1])
      case Err(e) => Err(e)
      case Ok(m) =>
        match items[|items| - 1]
        case Array(pair) =>
          if |pair| == 2 && pair[0].Leaf? && pair[0].v.Str? then Ok(m[pair[0].v.s := pair[1]])
          else Err(NotAMapping)
        case _ => Err(NotAMapping)
  }

  /**
   * dict() of a TOML value: a table's entries, or a list of pairs. The
   * empty string is an empty iterable and gives an empty dict; no other
   * scalar is a mapping or an iterable of pairs.
   */
  function DictOfValue(t: Toml): Result<map<string, Toml>, PyError> {
    match t
    case Table(m) => Ok(m)
    case Array(items) => PairsDict(items)
    case Leaf(Str(s)) => if s == "" then Ok(map[]) else Err(NotAMapping)
    case Leaf(_) => Err(NotAMapping)
  }

  /** dict(src[k]) against the contents `h` of the shared dicts. */
  function DictOf(e: Entry, h: Heap): Result<map<string, Toml>, PyError> {
    match e
    case Shared(d) => Ok(Contents(h, d))
    case Plain(t) => DictOfValue(t)
    case Selected(items) => PairsDict(items)
  }

  /** str() of a hashable ID; None for a list or a dict, which cannot be a key. */
  function IdText(id: Toml): Option<string> {
    match id
    case Leaf(Str(s)) => Some(s)
    case Leaf(Int(n)) => Some(IntToDecimal(n))
    case Leaf(Bool(b)) => Some(if b then "True" else "False")
    case Leaf(Other(text)) => Some(text)
    case _ => None
  }

  predicate IsKeyIn(id: Toml, table: map<string, Toml>) {
    id.Leaf? && id.v.Str? && id.v.s in table
  }

  /** The exception for an ID that is not a key: the KeyError apply_config rewords, or TypeError. */
  function MissingIdError(id: Toml, k: string): PyError {
    match IdText(id)
    case None => TypeError
    case Some(text) => KeyError("no '" + text + "' in '" + k + "'")
  }

  /** ids[j] is the first ID that is not a key of `table`. */
  predicate FirstMissing(ids: seq<Toml>, table: map<string, Toml>, j: int) {
    0 <= j < |ids| && !IsKeyIn(ids[j], table) && forall i :: 0 <= i < j ==> IsKeyIn(ids[i], table)
  }

  /**
   * The list comprehension of the list branch: the item of every ID, in
   * order and with repetitions, or the error of the first missing ID.
   */
  function Select(table: map<string, Toml>, ids: seq<Toml>, k: string): (r: Result<seq<Toml>, PyError>)
    ensures r.Ok? <==> forall j :: 0 <= j < |ids| ==> IsKeyIn(ids[j], table)
    ensures r.Ok? ==> |r.value| == |ids| && forall j :: 0 <= j < |ids| ==> r.value[j] == table[ids[j].v.s]
    ensures r.Err? ==> exists j :: FirstMissing(ids, table, j) && r.error == MissingIdError(ids[j], k)
  {
    if ids == [] then Ok([])
    else if !IsKeyIn(ids[0], table) then
      assert FirstMissing(ids, table, 0);
      Err(MissingIdError(ids[0], k))
    else match Select(table, ids[1..], k)
      case Err(e) =>
        var j :| FirstMissing(ids[1..], table, j) && e == MissingIdError(ids[1..][j], k);
        assert FirstMissing(ids, table, j + 1);
        Err(e)
      case Ok(rest) => Ok([table[ids[0].v.s]] + rest)
  }

  /** The copy being built and the contents of the shared dicts. */
  datatype State = State(dst: map<string, Entry>, heap: Heap)

  /** One iteration of the loop over the configuration, for config key `k` and value `vs`. */
  function Step(src: map<string, Entry>, st: State, k: string, vs: Toml): Result<State, PyError> {
    match vs
    case Table(m) =>
      if k !in st.dst then Err(KeyError(k))
      else (
        match st.dst[k]
        case Shared(d) => Ok(State(st.dst, st.heap[d := Contents(st.heap, d) + m]))
        case Plain(Table(m0)) => Ok(State(st.dst[k := Plain(Table(m0 + m))], st.heap))
        case _ => Ok(State(st.dst[k := Plain(Table(m))], st.heap)))
    case Array(ids) =>
      if k !in src then Err(KeyError(k))
      else (
        match DictOf(src[k], st.heap)
        case Err(e) => Err(e)
        case Ok(table) =>
          match Select(table, ids, k)
          case Err(e) => Err(e)
          case Ok(items) => Ok(State(st.dst[k := Selected(items)], st.heap)))
    case Leaf(_) => Ok(State(st.dst[k := Plain(vs)], st.heap))
  }

  /** Where the loop stands: its state, and the exception that stopped it, if any. */
  datatype Outcome = Outcome(st: State, failure: Option<PyError>)

  /** The loop over the configuration's entries, in order, from the shallow copy of `src`. */
  function Run(src: map<string, Entry>, h: Heap, config: seq<(string, Toml)>): Outcome {
    if config == [] then Outcome(State(src, h), None)
    else
      var prev := Run(src, h, config[..|config| - 1]);
      if prev.failure.Some? then prev
      else match Step(src, prev.st, config[|config| - 1].0, config[|config| - 1].1)
        case Ok(st) => Outcome(st, None)
        case Err(e) => Outcome(prev.st, Some(e))
  }

  /** The copy keeps every key of the source, and gains only the keys the configuration names. */
  lemma {:induction false} RunKeys(src: map<string, Entry>, h: Heap, config: seq<(string, Toml)>)
    ensures var dst := Run(src, h, config).st.dst;
      src.Keys <= dst.Keys && forall k :: k in dst && k !in src ==> exists i :: 0 <= i < |config| && config[i].0 == k
    decreases |config|
  {
    if config != [] {
      var prefix := config[..|config| - 1];
      RunKeys(src, h, prefix);
      forall k | k in Run(src, h, config).st.dst && k !in src
        ensures exists i :: 0 <= i < |config| && config[i].0 == k
      {
        if k in Run(src, h, prefix).st.dst {
          var i :| 0 <= i < |prefix| && prefix[i].0 == k;
          assert config[i] == prefix[i];
        } else {
          assert config[|config| - 1].0 == k;
        }
      }
    }
  }

  /** Once an entry raises, the later entries are not applied. */
  lemma {:induction false} RunFailureSticks(src: map<string, Entry>, h: Heap, config: seq<(string, Toml)>, n: nat)
    requires n <= |config| && Run(src, h, config[..n]).failure.Some?
    ensures Run(src, h, config) == Run(src, h, config[..n])
    decreases |config|
  {
    if n < |config| {
      var prefix := config[..|config| - 1];
      assert prefix[..n] == config[..n];
      RunFailureSticks(src, h, prefix, n);
    } else {
      assert config[..n] == config;
    }
  }

  /**
   * One pass of the loop of apply_config, for config key `k` and value
   * `vs`: the copy `dst` and the shared dicts `ds` end up as Step says,
   * and are left alone when the entry raises.
   */
  method ApplyEntry(src: Record, dst: Record, k: string, vs: Toml, ghost ds: set<Dict>) returns (failure: Option<PyError>)
    requires dst != src && DictsIn(src.fields) == ds && DictsIn(dst.fields) <= ds
    modifies dst, ds
    ensures src.fields == old(src.fields)
    ensures DictsIn(dst.fields) <= ds
    ensures var step := Step(src.fields, State(old(dst.fields), old(Snapshot(ds))), k, vs);
      && (failure.None? <==> step.Ok?)
      && (step.Ok? ==> State(dst.fields, Snapshot(ds)) == step.value)
      && (step.Err? ==> failure == Some(step.error) && dst.fields == old(dst.fields) && Snapshot(ds) == old(Snapshot(ds)))
  {
    ghost var heap := Snapshot(ds);
    match vs {
      case Table(m) =>
        if k !in dst.fields {
          return Some(KeyError(k));
        }
        match dst.fields[k] {
          case Shared(d) =>
            d.entries := d.entries + m;
            assert Snapshot(ds) == heap[d := Contents(heap, d) + m];
          case Plain(t) =>
            if t.Table? {
              dst.fields := dst.fields[k := Plain(Table(t.entries + m))];
            } else {
              dst.fields := dst.fields[k := Plain(Table(m))];
            }
          case Selected(_) =>
            dst.fields := dst.fields[k := Plain(Table(m))];
        }
      case Array(ids) =>
        if k !in src.fields {
          return Some(KeyError(k));
        }
        var srcIdDict: Result<map<string, Toml>, PyError>;
        match src.fields[k] {
          case Shared(d) => srcIdDict := Ok(d.entries);
          case Plain(t) => srcIdDict := DictOfValue(t);
          case Selected(items) => srcIdDict := PairsDict(items);
        }
        assert srcIdDict == DictOf(src.fields[k], heap);
        if srcIdDict.Err? {
          return Some(srcIdDict.error);
        }
        var selected := Select(srcIdDict.value, ids, k);
        if selected.Err? {
          return Some(selected.error);
        }
        dst.fields := dst.fields[k := Selected(selected.value)];
      case Leaf(_) =>
        dst.fields := dst.fields[k := Plain(vs)];
    }
    return None;
  }

  /**
   * apply_config(src, config), with the configuration's entries in their
   * insertion order. It changes no key of the source record, only the
   * contents of the dicts directly under it, and what it returns and how
   * those dicts end up are those of Run.
   */
  method ApplyConfig(src: Record, config: seq<(string, Toml)>) returns (r: Result<Record, PyError>)
    requires SourceDictsShared(src.fields)
    modifies DictsIn(src.fields)
    ensures src.fields == old(src.fields)
    ensures var run := Run(old(src.fields), old(Snapshot(DictsIn(src.fields))), config);
      && Snapshot(DictsIn(src.fields)) == run.st.heap
      && (r.Ok? <==> run.failure.None?)
      && (r.Err? ==> r.error == run.failure.value)
      && (r.Ok? ==> fresh(r.value) && r.value.fields == run.st.dst)
  {
    ghost var ds := DictsIn(src.fields);
    ghost var h0 := Snapshot(ds);
    var dst := new Record(src.fields);
    var i := 0;
    while i < |config|
      invariant 0 <= i <= |config|
      invariant fresh(dst)
      invariant src.fields == old(src.fields)
      invariant DictsIn(dst.fields) <= ds
      invariant Run(src.fields, h0, config[..i]) == Outcome(State(dst.fields, Snapshot(ds)), None)
    {
      assert config[..i + 1][..i] == config[..i];
      var failure := ApplyEntry(src, dst, config[i].0, config[i].1, ds);
      if failure.Some? {
        RunFailureSticks(src.fields, h0, config, i + 1);
        return Err(failure.value);
      }
      i := i + 1;
    }
    assert config[..i] == config;
    return Ok(dst);
  }

  // ---------------------------------------------------------------------
  // Properties of apply_config
  // ---------------------------------------------------------------------

  /** Some entry of the configuration is for key `k`. */
  predicate Configures(config: seq<(string, Toml)>, k: string) {
    exists i :: 0 <= i < |config| && config[i].0 == k
  }

  /**
   * A key the configuration does not name keeps, in the copy, the very
   * value of the source: the same dict object when it is a dict.
   */
  lemma {:induction false} RunKeepsUnconfigured(src: map<string, Entry>, h: Heap, config: seq<(string, Toml)>, k: string)
    requires !Configures(config, k)
    ensures var dst := Run(src, h, config).st.dst;
      (k in dst <==> k in src) && (k in src ==> dst[k] == src[k])
    decreases |config|
  {
    if config != [] {
      var prefix := config[..|config| - 1];
      assert !Configures(prefix, k) by {
        forall i | 0 <= i < |prefix| ensures prefix[i].0 != k { assert prefix[i] == config[i]; }
      }
      assert config[|config| - 1].0 != k;
      RunKeepsUnconfigured(src, h, prefix, k);
    }
  }

  /** The copy holds no dict object other than the source's own, each at its own key. */
  predicate SharesOnlySourceDicts(src: map<string, Entry>, dst: map<string, Entry>) {
    forall k :: k in dst && dst[k].Shared? ==> k in src && src[k] == dst[k]
  }

  lemma StepSharesOnlySourceDicts(src: map<string, Entry>, st: State, k: string, vs: Toml)
    requires SharesOnlySourceDicts(src, st.dst) && Step(src, st, k, vs).Ok?
    ensures SharesOnlySourceDicts(src, Step(src, st, k, vs).value.dst)
  {
  }

  /** The only dict objects the copy holds are the source's own, at the same keys. */
  lemma {:induction false} RunSharesOnlySourceDicts(src: map<string, Entry>, h: Heap, config: seq<(string, Toml)>)
    ensures var dst := Run(src, h, config).st.dst;
      forall k :: k in dst && dst[k].Shared? ==> k in src && src[k] == dst[k]
    decreases |config|
  {
    if config != [] {
      var prefix := config[..|config| - 1];
      var last := config[|config| - 1];
      RunSharesOnlySourceDicts(src, h, prefix);
      var prev := Run(src, h, prefix);
      if prev.failure.None? && Step(src, prev.st, last.0, last.1).Ok? {
        StepSharesOnlySourceDicts(src, prev.st, last.0, last.1);
      }
    }
  }

  /** The configuration updates the dict under key `k` of the source through a table entry. */
  predicate UpdatesDictAt(src: map<string, Entry>, config: seq<(string, Toml)>, d: Dict) {
    exists i :: 0 <= i < |config| && config[i].1.Table? && config[i].0 in src && src[config[i].0] == Shared(d)
  }

  /** A shared dict changes only through a table entry for a key under which the source holds it. */
  lemma {:induction false} RunHeapFrame(src: map<string, Entry>, h: Heap, config: seq<(string, Toml)>, d: Dict)
    requires !UpdatesDictAt(src, config, d)
    ensures Contents(Run(src, h, config).st.heap, d) == Contents(h, d)
    decreases |config|
  {
    if config != [] {
      var prefix := config[..|config| - 1];
      assert !UpdatesDictAt(src, prefix, d) by {
        forall i | 0 <= i < |prefix| ensures prefix[i] == config[i] { }
      }
      RunHeapFrame(src, h, prefix, d);
      RunSharesOnlySourceDicts(src, h, prefix);
      var last := config[|config| - 1];
      assert !(last.1.Table? && last.0 in src && src[last.0] == Shared(d));
    }
  }

  /**
   * An entry at any position of the configuration: unless an earlier entry
   * raised, it is one Step from the state the earlier entries left.
   */
  lemma RunSnoc(src: map<string, Entry>, h: Heap, config: seq<(string, Toml)>, k: string, vs: Toml)
    ensures var prev := Run(src, h, config);
      var run := Run(src, h, config + [(k, vs)]);
      && (prev.failure.Some? ==> run == prev)
      && (prev.failure.None? && Step(src, prev.st, k, vs).Ok? ==> run == Outcome(Step(src, prev.st, k, vs).value, None))
      && (prev.failure.None? && Step(src, prev.st, k, vs).Err? ==> run == Outcome(prev.st, Some(Step(src, prev.st, k, vs).error)))
  {
    assert (config + [(k, vs)])[..|config|] == config;
  }

  /**
   * Dict branch on a dict object in the copy: the copy keeps the same
   * object under `k`, and that object, which the source holds too, now has
   * its entries overlaid with the configuration's; no other dict changes.
   */
  lemma UpdateSharedDict(src: map<string, Entry>, st: State, k: string, d: Dict, m: map<string, Toml>)
    requires k in st.dst && st.dst[k] == Shared(d)
    ensures var r := Step(src, st, k, Table(m));
      && r.Ok?
      && r.value.dst == st.dst
      && Contents(r.value.heap, d) == Contents(st.heap, d) + m
      && (forall d' :: d' != d ==> Contents(r.value.heap, d') == Contents(st.heap, d'))
  {
  }

  /**
   * Dict branch on a value that is not a dict: the copy gets a new dict
   * with the configuration's entries, and no shared dict changes.
   */
  lemma ReplaceWithDict(src: map<string, Entry>, st: State, k: string, m: map<string, Toml>)
    requires k in st.dst && !st.dst[k].Shared? && !(st.dst[k].Plain? && st.dst[k].t.Table?)
    ensures var r := Step(src, st, k, Table(m));
      r.Ok? && r.value.dst == st.dst[k := Plain(Table(m))] && r.value.heap == st.heap
  {
  }

  /** Dict branch on a key the copy lacks: KeyError(k). */
  lemma DictBranchMissingKey(src: map<string, Entry>, st: State, k: string, m: map<string, Toml>)
    requires k !in st.dst
    ensures Step(src, st, k, Table(m)) == Err(KeyError(k))
  {
  }

  /**
   * List branch: the copy gets, in order and with repetitions, the item
   * for every ID of dict(src[k]), read with the current contents of the
   * shared dicts; nothing else changes.
   */
  lemma SelectItems(src: map<string, Entry>, st: State, k: string, ids: seq<Toml>, table: map<string, Toml>)
    requires k in src && DictOf(src[k], st.heap) == Ok(table)
    requires forall j :: 0 <= j < |ids| ==> IsKeyIn(ids[j], table)
    ensures var r := Step(src, st, k, Array(ids));
      && r.Ok?
      && r.value.heap == st.heap
      && r.value.dst.Keys == st.dst.Keys + {k}
      && r.value.dst[k].Selected?
      && |r.value.dst[k].items| == |ids|
      && (forall j :: 0 <= j < |ids| ==> r.value.dst[k].items[j] == table[ids[j].v.s])
      && (forall k' :: k' in st.dst && k' != k ==> r.value.dst[k'] == st.dst[k'])
  {
  }

  /** List branch: the first ID that is not a key raises KeyError("no '<id>' in '<k>'"). */
  lemma SelectMissingId(src: map<string, Entry>, st: State, k: string, ids: seq<Toml>, table: map<string, Toml>, j: nat, id: string)
    requires k in src && DictOf(src[k], st.heap) == Ok(table)
    requires FirstMissing(ids, table, j) && ids[j] == Leaf(Str(id))
    ensures Step(src, st, k, Array(ids)) == Err(KeyError("no '" + id + "' in '" + k + "'"))
  {
    var r := Select(table, ids, k);
    var j' :| FirstMissing(ids, table, j') && r.error == MissingIdError(ids[j'], k);
    assert j' == j;
  }

  /** List branch on a key the source lacks: KeyError(k). */
  lemma ListBranchMissingKey(src: map<string, Entry>, st: State, k: string, ids: seq<Toml>)
    requires k !in src
    ensures Step(src, st, k, Array(ids)) == Err(KeyError(k))
  {
  }

  /** Any other configuration value overrides the field directly. */
  lemma OverrideScalar(src: map<string, Entry>, st: State, k: string, v: Scalar)
    ensures var r := Step(src, st, k, Leaf(v));
      r.Ok? && r.value.dst == st.dst[k := Plain(Leaf(v))] && r.value.heap == st.heap
  {
  }

  /**
   * The update reaches the source: a later apply_config on the same source
   * record, for a configuration that selects from the same dict, sees the
   * entries an earlier configuration wrote into it.
   */
  lemma LaterConfigSeesUpdate(src: map<string, Entry>, h: Heap, k: string, d: Dict, m: map<string, Toml>, id: string)
    requires k in src && src[k] == Shared(d) && id in m
    ensures var first := Run(src, h, [(k, Table(m))]);
      var second := Run(src, first.st.heap, [(k, Array([Leaf(Str(id))]))]);
      second.failure.None? && second.st.dst[k] == Selected([m[id]])
  {
    var entry := (k, Table(m));
    RunSnoc(src, h, [], entry.0, entry.1);
    assert [] + [entry] == [entry];
    UpdateSharedDict(src, State(src, h), k, d, m);
    var heap := Run(src, h, [entry]).st.heap;
    var select := (k, Array([Leaf(Str(id))]));
    RunSnoc(src, heap, [], select.0, select.1);
    assert [] + [select] == [select];
    SelectItems(src, State(src, heap), k, [Leaf(Str(id))], Contents(h, d) + m);
  }
}
