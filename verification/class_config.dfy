/** The class-configuration service: two databases (the global master and
    one event database), each holding a ClassDefinitions table keyed by
    ClassKey and a ClassAliases table keyed by Alias whose ClassKey column
    references ClassDefinitions. Seeding copies master into the event,
    upserts and deletes write the event database and optionally master, and
    the resolver maps raw class text to a canonical key. */
module ClassConfig {
  import opened Wrappers
  import opened Text
  import Grouping
  import Seqs

  datatype ClassDefinition = ClassDefinition(
    classKey: string,
    displayName: string,
    bucket: string,
    sortOrder: int,
    isActive: bool,
    updatedUtc: string)

  datatype ClassAlias = ClassAlias(alias: string, classKey: string, updatedUtc: string)

  /** The two tables of one database, each row stored under its primary key. */
  datatype Store = Store(defs: map<string, ClassDefinition>, aliases: map<string, ClassAlias>)

  datatype Stores = Stores(master: Store, event: Store)

  datatype ConfigError =
    | ArgumentNull(paramName: string)
    | ForeignKeyViolation

  /** What a call leaves behind: both stores afterwards, and the exception it
      threw, if any. The two databases are written by separate statements, so
      an exception raised by the master write leaves the event write in
      place. */
  datatype Outcome = Outcome(stores: Stores, thrown: Option<ConfigError>)

  /** Rows sit under their own key, and every alias targets a stored class
      (the FK_CA_Class constraint). */
  predicate Valid(st: Store) {
    (forall k | k in st.defs :: st.defs[k].classKey == k)
    && (forall a | a in st.aliases :: st.aliases[a].alias == a && st.aliases[a].classKey in st.defs)
  }

  predicate ValidStores(st: Stores) {
    Valid(st.master) && Valid(st.event)
  }

  const PathError := Some(ArgumentNull("eventDbPath"))

  // ---------------------------------------------------------------------
  // Seeding

  /** The event store after merging master's rows into it: every master row
      is inserted or overwrites the event row with the same key. */
  function Merge(master: Store, event: Store): Store {
    Store(event.defs + master.defs, event.aliases + master.aliases)
  }

  /** SeedEventFromGlobalAsync. A whitespace path is rejected. All writes run
      in one transaction, so an alias whose class is missing rolls the whole
      seed back. */
  function Seed(st: Stores, path: string): (o: Outcome)
    ensures o.stores.master == st.master
    ensures o.thrown.Some? ==> o.stores == st
    ensures AllWhite(path) ==> o.thrown == PathError
    ensures ValidStores(st) && !AllWhite(path) ==> o.thrown.None? && ValidStores(o.stores)
    ensures o.thrown.None? ==>
      (forall k | k in st.master.defs :: k in o.stores.event.defs && o.stores.event.defs[k] == st.master.defs[k])
      && (forall a | a in st.master.aliases :: a in o.stores.event.aliases && o.stores.event.aliases[a] == st.master.aliases[a])
      && (forall k | k in st.event.defs && k !in st.master.defs :: k in o.stores.event.defs && o.stores.event.defs[k] == st.event.defs[k])
      && (forall a | a in st.event.aliases && a !in st.master.aliases :: a in o.stores.event.aliases && o.stores.event.aliases[a] == st.event.aliases[a])
      && o.stores.event.defs.Keys == st.event.defs.Keys + st.master.defs.Keys
      && o.stores.event.aliases.Keys == st.event.aliases.Keys + st.master.aliases.Keys
  {
    if AllWhite(path) then Outcome(st, PathError)
    else
      var merged := Merge(st.master, st.event);
      if exists a | a in st.master.aliases :: st.master.aliases[a].classKey !in merged.defs then
        Outcome(st, Some(ForeignKeyViolation))
      else
        Outcome(Stores(st.master, merged), None)
  }

  /** Seeding twice leaves the same stores as seeding once. */
  lemma SeedIdempotent(st: Stores, path: string)
    requires Seed(st, path).thrown.None?
    ensures Seed(Seed(st, path).stores, path) == Seed(st, path)
  {
    var once := Seed(st, path).stores;
    assert Merge(once.master, once.event) == once.event;
  }

  // ---------------------------------------------------------------------
  // Upserts

  /** The row the upsert writes: an empty UpdatedUtc becomes the time of the
      write. */
  function Stamped(def: ClassDefinition, now: string): ClassDefinition {
    if def.updatedUtc == "" then def.(updatedUtc := now) else def
  }

  function PutDefinition(st: Store, row: ClassDefinition): (r: Store)
    ensures r.aliases == st.aliases
    ensures row.classKey in r.defs && r.defs[row.classKey] == row
    ensures forall k | k != row.classKey :: (k in r.defs <==> k in st.defs) && (k in r.defs ==> r.defs[k] == st.defs[k])
  {
    st.(defs := st.defs[row.classKey := row])
  }

  /** UpsertClassDefinitionAsync. The event database is always written;
      master is written when `saveGlobally` holds. Nothing else changes. */
  function UpsertDefinition(st: Stores, def: Option<ClassDefinition>, path: string, saveGlobally: bool, now: string): (o: Outcome)
    ensures def.None? ==> o == Outcome(st, Some(ArgumentNull("def")))
    ensures def.Some? && AllWhite(path) ==> o == Outcome(st, PathError)
    ensures def.Some? && !AllWhite(path) ==>
      o.thrown.None?
      && o.stores.event == PutDefinition(st.event, Stamped(def.value, now))
      && o.stores.master == (if saveGlobally then PutDefinition(st.master, Stamped(def.value, now)) else st.master)
    ensures ValidStores(st) ==> ValidStores(o.stores)
  {
    if def.None? then Outcome(st, Some(ArgumentNull("def")))
    else if AllWhite(path) then Outcome(st, PathError)
    else
      var row := Stamped(def.value, now);
      var event := PutDefinition(st.event, row);
      var master := if saveGlobally then PutDefinition(st.master, row) else st.master;
      Outcome(Stores(master, event), None)
  }

  /** Insert or replace one alias row, subject to the foreign key. */
  function PutAlias(st: Store, row: ClassAlias): (r: Result<Store, ConfigError>)
    ensures r.Success? <==> row.classKey in st.defs
    ensures r.Success? ==>
      r.value.defs == st.defs
      && row.alias in r.value.aliases && r.value.aliases[row.alias] == row
      && forall a | a != row.alias :: (a in r.value.aliases <==> a in st.aliases) && (a in r.value.aliases ==> r.value.aliases[a] == st.aliases[a])
  {
    if row.classKey in st.defs then Success(st.(aliases := st.aliases[row.alias := row]))
    else Failure(ForeignKeyViolation)
  }

  /** UpsertAliasAsync. Null or whitespace alias, key or path is rejected
      first; the trimmed alias and key are written to the event database,
      then to master when `saveGlobally` holds. */
  function UpsertAlias(st: Stores, alias: Option<string>, classKey: Option<string>, path: string, saveGlobally: bool, now: string): (o: Outcome)
    ensures IsNullOrWhiteSpace(alias) ==> o == Outcome(st, Some(ArgumentNull("alias")))
    ensures !IsNullOrWhiteSpace(alias) && IsNullOrWhiteSpace(classKey) ==> o == Outcome(st, Some(ArgumentNull("classKey")))
    ensures !IsNullOrWhiteSpace(alias) && !IsNullOrWhiteSpace(classKey) && AllWhite(path) ==> o == Outcome(st, PathError)
    ensures o.thrown.None? ==> alias.Some? && classKey.Some?
    ensures o.thrown.None? ==> PutAlias(st.event, ClassAlias(Trim(alias.value), Trim(classKey.value), now)) == Success(o.stores.event)
    ensures o.thrown.None? && saveGlobally ==> PutAlias(st.master, ClassAlias(Trim(alias.value), Trim(classKey.value), now)) == Success(o.stores.master)
    ensures o.stores.master != st.master ==> saveGlobally && o.thrown.None?
    ensures o.stores.event != st.event ==> o.thrown.None? || o.thrown == Some(ForeignKeyViolation)
  {
    if IsNullOrWhiteSpace(alias) then Outcome(st, Some(ArgumentNull("alias")))
    else if IsNullOrWhiteSpace(classKey) then Outcome(st, Some(ArgumentNull("classKey")))
    else if AllWhite(path) then Outcome(st, PathError)
    else
      var row := ClassAlias(Trim(alias.value), Trim(classKey.value), now);
      match PutAlias(st.event, row)
      case Failure(e) => Outcome(st, Some(e))
      case Success(event) =>
        if !saveGlobally then Outcome(Stores(st.master, event), None)
        else
          match PutAlias(st.master, row)
          case Failure(e) => Outcome(Stores(st.master, event), Some(e))
          case Success(master) => Outcome(Stores(master, event), None)
  }

  /** A foreign-key failure on master leaves the event write in place: the
      two stores then disagree about the alias. */
  lemma UpsertAliasPartialWrite(st: Stores, alias: string, classKey: string, path: string, now: string)
    requires !AllWhite(alias) && !AllWhite(classKey) && !AllWhite(path)
    requires Trim(classKey) in st.event.defs && Trim(classKey) !in st.master.defs
    ensures var o := UpsertAlias(st, Some(alias), Some(classKey), path, true, now);
      o.thrown == Some(ForeignKeyViolation)
      && o.stores.master == st.master
      && Trim(alias) in o.stores.event.aliases
      && o.stores.event.aliases[Trim(alias)].classKey == Trim(classKey)
  {
  }

  lemma PutAliasValid(st: Store, row: ClassAlias)
    requires Valid(st) && PutAlias(st, row).Success?
    ensures Valid(PutAlias(st, row).value)
  {
  }

  /** Every operation keeps both stores valid. */
  lemma UpsertAliasValid(st: Stores, alias: Option<string>, classKey: Option<string>, path: string, saveGlobally: bool, now: string)
    requires ValidStores(st)
    ensures ValidStores(UpsertAlias(st, alias, classKey, path, saveGlobally, now).stores)
  {
    if !IsNullOrWhiteSpace(alias) && !IsNullOrWhiteSpace(classKey) && !AllWhite(path) {
      var row := ClassAlias(Trim(alias.value), Trim(classKey.value), now);
      if PutAlias(st.event, row).Success? {
        PutAliasValid(st.event, row);
        if PutAlias(st.master, row).Success? {
          PutAliasValid(st.master, row);
        }
      }
    }
  }

  // ---------------------------------------------------------------------
  // Deletes

  /** Remove every alias targeting `key`, then the definition itself. */
  function RemoveDefinition(st: Store, key: string): (r: Store)
    ensures key !in r.defs
    ensures forall a | a in r.aliases :: r.aliases[a].classKey != key
    ensures forall k | k != key :: (k in r.defs <==> k in st.defs) && (k in r.defs ==> r.defs[k] == st.defs[k])
    ensures forall a | a in st.aliases :: (a in r.aliases <==> st.aliases[a].classKey != key)
    ensures forall a | a in r.aliases :: a in st.aliases && r.aliases[a] == st.aliases[a]
    ensures Valid(st) ==> Valid(r)
  {
    var aliases := map a | a in st.aliases && st.aliases[a].classKey != key :: st.aliases[a];
    Store(st.defs - {key}, aliases)
  }

  /** DeleteClassDefinitionAsync. The key is used exactly as given (not
      trimmed); master is changed only when `deleteGlobally` holds. */
  function DeleteDefinition(st: Stores, classKey: Option<string>, path: string, deleteGlobally: bool): (o: Outcome)
    ensures IsNullOrWhiteSpace(classKey) ==> o == Outcome(st, Some(ArgumentNull("classKey")))
    ensures !IsNullOrWhiteSpace(classKey) && AllWhite(path) ==> o == Outcome(st, PathError)
    ensures o.thrown.None? ==>
      classKey.Some?
      && o.stores.event == RemoveDefinition(st.event, classKey.value)
      && o.stores.master == (if deleteGlobally then RemoveDefinition(st.master, classKey.value) else st.master)
    ensures ValidStores(st) ==> ValidStores(o.stores)
  {
    if IsNullOrWhiteSpace(classKey) then Outcome(st, Some(ArgumentNull("classKey")))
    else if AllWhite(path) then Outcome(st, PathError)
    else
      var key := classKey.value;
      Outcome(Stores(if deleteGlobally then RemoveDefinition(st.master, key) else st.master,
                     RemoveDefinition(st.event, key)), None)
  }

  /** Deleting a key that has no definition and no aliases changes nothing. */
  lemma RemoveMissingDefinition(st: Store, key: string)
    requires Valid(st) && key !in st.defs
    ensures RemoveDefinition(st, key) == st
  {
    var r := RemoveDefinition(st, key);
    assert r.defs == st.defs;
    assert r.aliases == st.aliases;
  }

  /** DeleteAliasAsync: removes exactly the alias given, untrimmed. */
  function DeleteAlias(st: Stores, alias: Option<string>, path: string, deleteGlobally: bool): (o: Outcome)
    ensures IsNullOrWhiteSpace(alias) ==> o == Outcome(st, Some(ArgumentNull("alias")))
    ensures !IsNullOrWhiteSpace(alias) && AllWhite(path) ==> o == Outcome(st, PathError)
    ensures o.thrown.None? ==>
      alias.Some?
      && o.stores.event == st.event.(aliases := st.event.aliases - {alias.value})
      && o.stores.master == (if deleteGlobally then st.master.(aliases := st.master.aliases - {alias.value}) else st.master)
    ensures ValidStores(st) ==> ValidStores(o.stores)
  {
    if IsNullOrWhiteSpace(alias) then Outcome(st, Some(ArgumentNull("alias")))
    else if AllWhite(path) then Outcome(st, PathError)
    else
      var a := alias.value;
      Outcome(Stores(if deleteGlobally then st.master.(aliases := st.master.aliases - {a}) else st.master,
                     st.event.(aliases := st.event.aliases - {a})), None)
  }

  // ---------------------------------------------------------------------
  // Resolution

  /** ResolveClassKeyAsync against the event store: null or whitespace text
      resolves to nothing; otherwise the trimmed text is looked up first as
      an alias and then as a class key. */
  function Resolve(ev: Store, text: Option<string>): (r: Option<string>)
    ensures r.Some? ==> !AllWhite(r.value)
  {
    if IsNullOrWhiteSpace(text) then None else Lookup(ev, Trim(text.value))
  }

  /** The two lookups of ResolveClassKeyAsync on an already trimmed text,
      both case-sensitive. A lookup that yields a whitespace key counts as a
      miss. */
  function Lookup(ev: Store, t: string): (r: Option<string>)
    ensures r.Some? ==> !AllWhite(r.value)
  {
    var aliasMatch := if t in ev.aliases then Some(ev.aliases[t].classKey) else None;
    if !IsNullOrWhiteSpace(aliasMatch) then aliasMatch
    else
      var defMatch := if t in ev.defs then Some(ev.defs[t].classKey) else None;
      if !IsNullOrWhiteSpace(defMatch) then defMatch else None
  }

  /** An alias hit wins: text whose trimmed form is an alias with a usable
      target resolves to that target, even when the text is also a class
      key. */
  lemma ResolveAliasFirst(ev: Store, text: string)
    requires !AllWhite(text)
    requires Trim(text) in ev.aliases && !AllWhite(ev.aliases[Trim(text)].classKey)
    ensures Resolve(ev, Some(text)) == Some(ev.aliases[Trim(text)].classKey)
  {
  }

  /** A trimmed, non-empty text is not whitespace. */
  lemma TrimmedNotWhite(t: string)
    requires Trimmed(t) && t != []
    ensures !AllWhite(t)
  {
    assert !IsWhiteSpace(t[0]);
  }

  /** With no usable alias, the text resolves to itself (trimmed) exactly
      when it is a class key, and to nothing otherwise. */
  lemma ResolveWithoutAlias(ev: Store, text: string)
    requires Valid(ev)
    requires !AllWhite(text)
    requires Trim(text) !in ev.aliases || AllWhite(ev.aliases[Trim(text)].classKey)
    ensures Resolve(ev, Some(text)) == (if Trim(text) in ev.defs then Some(Trim(text)) else None)
  {
    TrimEmptyIff(text);
    assert Resolve(ev, Some(text)) == Lookup(ev, Trim(text));
    LookupWithoutAlias(ev, Trim(text));
  }

  /** `ResolveWithoutAlias` for text already trimmed. */
  lemma LookupWithoutAlias(ev: Store, t: string)
    requires Valid(ev) && Trimmed(t) && t != []
    requires t !in ev.aliases || AllWhite(ev.aliases[t].classKey)
    ensures Lookup(ev, t) == (if t in ev.defs then Some(t) else None)
  {
    TrimmedNotWhite(t);
    if t in ev.defs {
      assert ev.defs[t].classKey == t;
    }
  }

  /** Only the trimmed text matters. */
  lemma ResolveTrims(ev: Store, text: string)
    ensures Resolve(ev, Some(text)) == Resolve(ev, Some(Trim(text)))
  {
    TrimIdempotent(text);
    TrimEmptyIff(text);
    TrimEmptyIff(Trim(text));
  }

  /** ResolveClassKeyAsync with its path check. */
  function ResolveClassKey(st: Stores, text: Option<string>, path: string): (r: Result<Option<string>, ConfigError>)
    ensures AllWhite(path) <==> r.Failure?
    ensures r.Success? ==> r.value == Resolve(st.event, text)
    ensures r.Success? && IsNullOrWhiteSpace(text) ==> r.value.None?
  {
    if AllWhite(path) then Failure(ArgumentNull("eventDbPath")) else Success(Resolve(st.event, text))
  }

  /** After a successful UpsertAlias, resolving the alias yields the
      trimmed class key. */
  lemma UpsertAliasThenResolve(st: Stores, alias: string, classKey: string, path: string, saveGlobally: bool, now: string)
    requires UpsertAlias(st, Some(alias), Some(classKey), path, saveGlobally, now).thrown.None?
    ensures Resolve(UpsertAlias(st, Some(alias), Some(classKey), path, saveGlobally, now).stores.event, Some(alias))
      == Some(Trim(classKey))
  {
    var o := UpsertAlias(st, Some(alias), Some(classKey), path, saveGlobally, now);
    TrimEmptyIff(alias);
    TrimEmptyIff(classKey);
    TrimEmptyIff(Trim(classKey));
    assert Trim(classKey) != [] && Trimmed(Trim(classKey));
    assert !AllWhite(Trim(classKey));
    assert Trim(alias) in o.stores.event.aliases;
  }

  // ---------------------------------------------------------------------
  // Unmapped classes

  /** SELECT DISTINCT: the first occurrence of each value, in input order. */
  function DistinctValues(s: seq<string>): (r: seq<string>)
    ensures Seqs.Distinct(r)
    ensures forall x :: x in r <==> x in s
  {
    var r := Grouping.GroupKeys(s, (x: string) => x);
    assert forall x :: x in r <==> x in s by {
      forall x
        ensures x in r <==> x in s
      {
        if x in r {
          var j :| 0 <= j < |r| && r[j] == x;
        }
      }
    }
    r
  }

  /** The text the query as written tests: a class trimmed by SQLite's
      `trim`, which removes spaces only, that is not blank and is neither an
      alias nor a class key. */
  predicate UnmappedAsWritten(ev: Store, u: string) {
    !AllWhite(u) && u !in ev.aliases && u !in ev.defs
  }

  /** The rows GetUnmappedClassesAsync keeps as written: the query's
      `DISTINCT` rows, each a space-trimmed class text that is not an alias
      or a key, less the whitespace rows the caller drops. */
  function UnmappedRowsAsWritten(ev: Store, classes: seq<string>): (rows: seq<string>)
    ensures Seqs.Distinct(rows)
    ensures forall u :: u in rows <==> u in SqlTrimAll(classes) && UnmappedAsWritten(ev, u)
  {
    var f := (t: string) => t != "" && t !in ev.aliases && t !in ev.defs;
    var g := (t: string) => !AllWhite(t);
    var d := DistinctValues(Seqs.Filter(SqlTrimAll(classes), f));
    var kept := Seqs.Filter(d, g);
    Seqs.FilterDistinct(d, g);
    forall u
      ensures u in kept <==> u in SqlTrimAll(classes) && UnmappedAsWritten(ev, u)
    {
      Seqs.FilterIn(d, g, u);
      Seqs.FilterIn(SqlTrimAll(classes), f, u);
      if u == "" {
        assert AllWhite(u);
      }
    }
    kept
  }

  /** GetUnmappedClassesAsync as written: each kept row trimmed again with
      `string.Trim`. The rows are distinct, the results need not be: two
      rows that differ only in tabs or line breaks give the same text. */
  function GetUnmappedAsWritten(ev: Store, classes: seq<string>): (r: seq<string>)
    ensures var rows := UnmappedRowsAsWritten(ev, classes);
      |r| == |rows| && forall j | 0 <= j < |r| :: r[j] == Trim(rows[j])
    ensures forall j | 0 <= j < |r| :: !AllWhite(r[j]) && Trimmed(r[j])
  {
    TrimKept(UnmappedRowsAsWritten(ev, classes))
  }

  /** Each routine's class text, trimmed by SQLite's `trim`. */
  function SqlTrimAll(classes: seq<string>): (r: seq<string>)
    ensures |r| == |classes|
    ensures forall i | 0 <= i < |r| :: r[i] == SqlTrim(classes[i])
  {
    seq(|classes|, i requires 0 <= i < |classes| => SqlTrim(classes[i]))
  }

  /** The caller's final `Trim` over the rows it kept. */
  function TrimKept(kept: seq<string>): (r: seq<string>)
    requires forall j | 0 <= j < |kept| :: !AllWhite(kept[j])
    ensures |r| == |kept|
    ensures forall j | 0 <= j < |r| :: r[j] == Trim(kept[j])
    ensures forall j | 0 <= j < |r| :: !AllWhite(r[j]) && Trimmed(r[j])
  {
    seq(|kept|, j requires 0 <= j < |kept| => TrimOf(kept[j]))
  }

  function TrimOf(s: string): (r: string)
    requires !AllWhite(s)
    ensures !AllWhite(r) && Trimmed(r)
  {
    TrimEmptyIff(s);
    var r := Trim(s);
    assert r != [] && !IsWhiteSpace(r[0]);
    r
  }

  /** Each routine's class text, trimmed by `string.Trim`. */
  function TrimAll(classes: seq<string>): (r: seq<string>)
    ensures |r| == |classes|
    ensures forall i | 0 <= i < |r| :: r[i] == Trim(classes[i])
  {
    seq(|classes|, i requires 0 <= i < |classes| => Trim(classes[i]))
  }

  /** GetUnmappedClassesAsync as intended: the distinct trimmed, non-empty
      routine class texts that are neither an alias nor a class key. */
  function GetUnmapped(ev: Store, classes: seq<string>): (r: seq<string>)
    ensures Seqs.Distinct(r)
    ensures forall t :: t in r <==> (t != "" && t !in ev.aliases && t !in ev.defs && t in TrimAll(classes))
  {
    var trimmed := TrimAll(classes);
    var f := (t: string) => t != "" && t !in ev.aliases && t !in ev.defs;
    var r := DistinctValues(Seqs.Filter(trimmed, f));
    assert forall t :: t in r <==> (f(t) && t in trimmed) by {
      forall t
        ensures t in r <==> (f(t) && t in trimmed)
      {
        Seqs.FilterIn(trimmed, f, t);
      }
    }
    r
  }

  /** No text the corrected query reports resolves to a class. */
  lemma UnmappedDoNotResolve(ev: Store, classes: seq<string>, t: string)
    requires Valid(ev)
    requires t in GetUnmapped(ev, classes)
    ensures Resolve(ev, Some(t)) == None
  {
    var i :| 0 <= i < |classes| && TrimAll(classes)[i] == t;
    TrimIdempotent(classes[i]);
    TrimEmptyIff(t);
  }

  /** The query as written reports a text that is mapped: a routine whose
      class is an alias followed by a tab is listed, trimmed, although the
      alias resolves. */
  lemma UnmappedAsWrittenReportsAlias()
    ensures var ev := Store(map["Teen" := ClassDefinition("Teen", "Teen", "Studio", 40, true, "")],
                            map["Tn" := ClassAlias("Tn", "Teen", "")]);
      "Tn" in GetUnmappedAsWritten(ev, ["Tn\t"]) && Resolve(ev, Some("Tn")) == Some("Teen")
  {
    var ev := Store(map["Teen" := ClassDefinition("Teen", "Teen", "Studio", 40, true, "")],
                    map["Tn" := ClassAlias("Tn", "Teen", "")]);
    TabbedAliasListed(ev);
    TabbedAliasResolves(ev);
  }

  lemma TabbedAliasListed(ev: Store)
    requires ev.aliases.Keys == {"Tn"} && ev.defs.Keys == {"Teen"}
    ensures "Tn" in GetUnmappedAsWritten(ev, ["Tn\t"])
  {
    var c := "Tn\t";
    TabbedAliasTrims();
    assert SqlTrimAll([c])[0] == c;
    assert !AllWhite(c) by {
      assert !IsWhiteSpace(c[0]);
    }
    assert UnmappedAsWritten(ev, c);
    var rows := UnmappedRowsAsWritten(ev, [c]);
    assert c in rows;
    var j :| 0 <= j < |rows| && rows[j] == c;
    assert GetUnmappedAsWritten(ev, [c])[j] == "Tn";
  }

  lemma TabbedAliasResolves(ev: Store)
    requires ev == Store(map["Teen" := ClassDefinition("Teen", "Teen", "Studio", 40, true, "")],
                         map["Tn" := ClassAlias("Tn", "Teen", "")])
    ensures Resolve(ev, Some("Tn")) == Some("Teen")
  {
    TabbedAliasTrims();
    assert !AllWhite("Tn") by {
      assert !IsWhiteSpace("Tn"[0]);
    }
    assert !AllWhite("Teen") by {
      assert !IsWhiteSpace("Teen"[0]);
    }
    assert Lookup(ev, "Tn") == Some("Teen");
  }

  lemma TabbedAliasTrims()
    ensures SqlTrim("Tn\t") == "Tn\t"
    ensures Trim("Tn\t") == "Tn" && Trim("Tn") == "Tn"
  {
    TabbedSqlTrim();
    TabbedTrim();
    TrimNoop("Tn");
  }

  lemma TabbedSqlTrim()
    ensures SqlTrim("Tn\t") == "Tn\t"
  {
    var c := "Tn\t";
    assert c[0] == 'T' && c[|c| - 1] == '\t';
  }

  lemma TabbedTrim()
    ensures Trim("Tn\t") == "Tn"
  {
    var c := "Tn\t";
    TrimStartNoop(c);
    assert c[..|c| - 1] == "Tn";
    TrimEndNoop("Tn");
  }
}
