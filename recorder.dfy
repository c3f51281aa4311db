/** `updateHistoryForField` and the pre-save hook, as functions on a snapshot
    of the document. The class in documents.dfy runs the same rule in place
    and is proved against these functions. */
module Recorder {
  import opened JsValues
  import opened HistoryDefinitions

  /** One record of a history log. The timestamp the schema fills in with
      `Date.now` is not modelled. */
  datatype HistoryEntry = HistoryEntry(before: Value, after: Value)

  /** What the rule can see of a document: its field values, its history
      logs (keyed by `<field>_history`), `isNew` and the modified paths. */
  datatype DocState = DocState(
    values: map<string, Value>,
    histories: map<string, seq<HistoryEntry>>,
    isNew: bool,
    modified: set<string>)

  /** `document.get(field)`: an unset field reads as `undefined`. */
  function Get(d: DocState, field: string): Value {
    if field in d.values then d.values[field] else Undefined
  }

  /** `document.get(field + "_history")`: the schema's default for an array
      path is `[]`, so a log never written reads as empty. */
  function HistoryOf(d: DocState, field: string): seq<HistoryEntry> {
    if HistoryName(field) in d.histories then d.histories[HistoryName(field)] else []
  }

  /** `last(history).after`, with `null` for an empty log (see NextEntryAsWritten). */
  function LastAfter(h: seq<HistoryEntry>): Value {
    if h == [] then Null else h[|h| - 1].after
  }

  /** The entry the rule appends to a log, or None when it leaves it alone. */
  function NextEntry(h: seq<HistoryEntry>, isNew: bool, isModified: bool, v: Value): (r: Option<HistoryEntry>)
    ensures r.None? <==> !(isNew && Truthy(v)) && !isModified
    ensures r.Some? ==> r.value.after == v
    ensures r.Some? ==> r.value.before == Null || (h != [] && r.value.before == h[|h| - 1].after)
    ensures r.Some? && !(isNew && Truthy(v)) && h != [] ==> r.value.before == h[|h| - 1].after
    ensures isNew && Truthy(v) ==> r == Some(HistoryEntry(Null, v))
  {
    if isNew && Truthy(v) then Some(HistoryEntry(Null, v))
    else if isModified then Some(HistoryEntry(LastAfter(h), v))
    else None
  }

  /** The rule of src/index.ts:73-95 applied to one watched field. */
  function AfterFieldUpdate(d: DocState, field: string): (r: DocState)
    ensures r.values == d.values && r.isNew == d.isNew && r.modified == d.modified
    ensures r.histories - {HistoryName(field)} == d.histories - {HistoryName(field)}
  {
    match NextEntry(HistoryOf(d, field), d.isNew, field in d.modified, Get(d, field))
    case None => d
    case Some(e) => d.(histories := d.histories[HistoryName(field) := HistoryOf(d, field) + [e]])
  }

  /** The pre-save hook (src/index.ts:28-30): the rule for each watched field,
      in the configured order. */
  function AfterHook(d: DocState, fields: seq<string>): (r: DocState)
    ensures r.values == d.values && r.isNew == d.isNew && r.modified == d.modified
    decreases |fields|
  {
    if fields == [] then d
    else AfterFieldUpdate(AfterHook(d, fields[..|fields| - 1]), fields[|fields| - 1])
  }

  // ---- The three cases of the rule ----

  /** Case A: a new document whose field holds a truthy value records
      `{before: null, after: value}`, whether or not the field is modified. */
  lemma RecordsInitialValue(d: DocState, field: string)
    requires d.isNew && Truthy(Get(d, field))
    ensures HistoryOf(AfterFieldUpdate(d, field), field)
         == HistoryOf(d, field) + [HistoryEntry(Null, Get(d, field))]
  {
  }

  /** Case B: otherwise a modified field records its previous value (the
      `after` of the last entry) and its current one. */
  lemma RecordsModification(d: DocState, field: string)
    requires !(d.isNew && Truthy(Get(d, field))) && field in d.modified
    ensures HistoryOf(AfterFieldUpdate(d, field), field)
         == HistoryOf(d, field) + [HistoryEntry(LastAfter(HistoryOf(d, field)), Get(d, field))]
  {
  }

  /** Case C: in every other case the whole document is left as it was. */
  lemma LeavesUntouched(d: DocState, field: string)
    requires !(d.isNew && Truthy(Get(d, field))) && field !in d.modified
    ensures AfterFieldUpdate(d, field) == d
  {
  }

  /** Append-only: the log afterwards is the old log followed by at most one
      entry, and a log changes exactly when case A or case B applies. */
  lemma AppendOnly(d: DocState, field: string)
    ensures HistoryOf(d, field) <= HistoryOf(AfterFieldUpdate(d, field), field)
    ensures |HistoryOf(AfterFieldUpdate(d, field), field)| <= |HistoryOf(d, field)| + 1
    ensures (AfterFieldUpdate(d, field) == d) <==> !(d.isNew && Truthy(Get(d, field))) && field !in d.modified
  {
    if (d.isNew && Truthy(Get(d, field))) || field in d.modified {
      assert |HistoryOf(AfterFieldUpdate(d, field), field)| == |HistoryOf(d, field)| + 1;
    }
  }

  /** A log is chained when its first entry has no previous value and every
      later entry starts from the value the one before it ended with. */
  predicate Chained(h: seq<HistoryEntry>) {
    && (h != [] ==> h[0].before == Null)
    && forall k :: 0 < k < |h| ==> h[k].before == h[k - 1].after
  }

  /** The rule keeps a log chained, provided a new document's log is still
      empty, as the schema default makes it at creation. */
  lemma ChainPreserved(d: DocState, field: string)
    requires Chained(HistoryOf(d, field))
    requires d.isNew ==> HistoryOf(d, field) == []
    ensures Chained(HistoryOf(AfterFieldUpdate(d, field), field))
  {
    var h := HistoryOf(d, field);
    var h' := HistoryOf(AfterFieldUpdate(d, field), field);
    if h' != h {
      assert h' == h + [h'[|h|]];
      assert h'[|h|].before == LastAfter(h);
    }
  }

  // ---- The hook over several fields ----

  /** Watched fields are processed independently: after the hook each watched
      field's log is what the rule alone makes of it, and every other log is
      unchanged. */
  lemma {:induction false} HookIndependence(d: DocState, fields: seq<string>, field: string)
    requires Distinct(fields)
    ensures HistoryOf(AfterHook(d, fields), field)
         == if field in fields then HistoryOf(AfterFieldUpdate(d, field), field) else HistoryOf(d, field)
    decreases |fields|
  {
    if fields != [] {
      var init := fields[..|fields| - 1];
      var last := fields[|fields| - 1];
      assert Distinct(init);
      HookIndependence(d, init, field);
      HookIndependence(d, init, last);
      var mid := AfterHook(d, init);
      assert last !in init by {
        if last in init {
          assert false;
        }
      }
      assert field in fields <==> field in init || field == last by {
        assert fields == init + [last];
      }
      if field == last {
        assert HistoryOf(mid, field) == HistoryOf(d, field);
        assert Get(mid, field) == Get(d, field);
      } else {
        HistoryNameInjective(field, last);
        assert HistoryOf(AfterHook(d, fields), field) == HistoryOf(mid, field);
      }
    }
  }

  /** If every watched log was chained before the hook (and still empty on a
      new document), every one is chained after it. */
  lemma HookPreservesChains(d: DocState, fields: seq<string>)
    requires Distinct(fields)
    requires forall f :: f in fields ==> Chained(HistoryOf(d, f))
    requires d.isNew ==> forall f :: f in fields ==> HistoryOf(d, f) == []
    ensures forall f :: f in fields ==> Chained(HistoryOf(AfterHook(d, fields), f))
  {
    forall f | f in fields ensures Chained(HistoryOf(AfterHook(d, fields), f)) {
      HookIndependence(d, fields, f);
      ChainPreserved(d, f);
    }
  }

  /** Saving an existing document in which no watched field is modified
      (other fields may be) appends no entry anywhere. */
  lemma {:induction false} HookIdleSave(d: DocState, fields: seq<string>)
    requires !d.isNew && forall f :: f in fields ==> f !in d.modified
    ensures AfterHook(d, fields) == d
    decreases |fields|
  {
    if fields != [] {
      HookIdleSave(d, fields[..|fields| - 1]);
    }
  }

  // ---- The source as written on an empty log ----

  /** What one call of `updateHistoryForField` does, as written. */
  datatype Outcome = Append(entry: HistoryEntry) | Skip | TypeError

  /** Case B reads `last(currentHistory).after`; Ramda's `last` of an empty
      array is `undefined`, so reading `.after` throws and the save fails. */
  function NextEntryAsWritten(h: seq<HistoryEntry>, isNew: bool, isModified: bool, v: Value): (r: Outcome)
    ensures r == TypeError <==> !(isNew && Truthy(v)) && isModified && h == []
    ensures r == Skip <==> !(isNew && Truthy(v)) && !isModified
    ensures r.Append? ==> r.entry.after == v
    ensures isNew && Truthy(v) ==> r == Append(HistoryEntry(Null, v))
    ensures !(isNew && Truthy(v)) && isModified && h != [] ==> r == Append(HistoryEntry(h[|h| - 1].after, v))
  {
    if isNew && Truthy(v) then Append(HistoryEntry(Null, v))
    else if isModified then (if h == [] then TypeError else Append(HistoryEntry(h[|h| - 1].after, v)))
    else Skip
  }

  /** A document saved first with its watched field empty keeps an empty
      log; setting the field later makes the next save throw. */
  lemma LateFirstValueFaults(v: Value)
    requires Truthy(v)
    ensures var created := DocState(map[], map[HistoryName("name") := []], true, {});
            var edited := DocState(map["name" := v], AfterHook(created, ["name"]).histories, false, {"name"});
            && HistoryOf(AfterHook(created, ["name"]), "name") == []
            && NextEntryAsWritten(HistoryOf(edited, "name"), edited.isNew, "name" in edited.modified, v) == TypeError
  {
  }

  /** Wherever the source does not throw, it does exactly what NextEntry does. */
  lemma AsWrittenAgrees(h: seq<HistoryEntry>, isNew: bool, isModified: bool, v: Value)
    ensures NextEntryAsWritten(h, isNew, isModified, v) == TypeError
        <==> !(isNew && Truthy(v)) && isModified && h == []
    ensures NextEntryAsWritten(h, isNew, isModified, v) == Skip
        <==> NextEntry(h, isNew, isModified, v) == None
    ensures NextEntryAsWritten(h, isNew, isModified, v).Append?
        ==> NextEntry(h, isNew, isModified, v) == Some(NextEntryAsWritten(h, isNew, isModified, v).entry)
  {
  }

  /** With `null` as the previous value of an empty log, the late first value
      is recorded as a chain of one entry, the same entry a new document gets. */
  lemma LateFirstValueRecorded(d: DocState, field: string)
    requires !d.isNew && field in d.modified && HistoryOf(d, field) == []
    ensures HistoryOf(AfterFieldUpdate(d, field), field) == [HistoryEntry(Null, Get(d, field))]
    ensures Chained(HistoryOf(AfterFieldUpdate(d, field), field))
  {
  }

  // ---- The scenarios of spec/plugin.spec.js ----

  /** Creating `{name: "Charmander", type: "Fire"}` records one entry; renaming
      it to "Charmeleon" and saving records a second one chained to the first. */
  lemma CharmanderScenario()
    ensures var created := DocState(map["name" := Str("Charmander"), "type" := Str("Fire")],
                                    map["name_history" := []], true, {"name", "type"});
            var first := HistoryOf(AfterHook(created, ["name"]), "name");
            var renamed := DocState(created.values["name" := Str("Charmeleon")],
                                    AfterHook(created, ["name"]).histories, false, {"name"});
            var second := HistoryOf(AfterHook(renamed, ["name"]), "name");
            && first == [HistoryEntry(Null, Str("Charmander"))]
            && second == [HistoryEntry(Null, Str("Charmander")), HistoryEntry(Str("Charmander"), Str("Charmeleon"))]
  {
  }
}
