/** The document the pre-save hook mutates: `updateHistoryForField` reads
    the document and writes the extended log back with `document.set`. */
module Documents {
  import opened JsValues
  import opened HistoryDefinitions
  import opened Recorder

  class Document {
    var values: map<string, Value>
    var histories: map<string, seq<HistoryEntry>>
    var isNew: bool
    var modified: set<string>

    /** The snapshot the specification functions of Recorder speak about. */
    function State(): DocState
      reads this
    {
      DocState(values, histories, isNew, modified)
    }

    constructor (values: map<string, Value>, histories: map<string, seq<HistoryEntry>>,
                 isNew: bool, modified: set<string>)
      ensures State() == DocState(values, histories, isNew, modified)
    {
      this.values := values;
      this.histories := histories;
      this.isNew := isNew;
      this.modified := modified;
    }

    /** src/index.ts:73-95: append at most one entry to `<field>_history`. */
    method UpdateHistoryForField(field: string)
      modifies this
      ensures State() == AfterFieldUpdate(old(State()), field)
      ensures HistoryOf(old(State()), field) <= HistoryOf(State(), field)
      ensures (Chained(HistoryOf(old(State()), field)) && (old(isNew) ==> HistoryOf(old(State()), field) == []))
                ==> Chained(HistoryOf(State(), field))
    {
      AppendOnly(State(), field);
      if Chained(HistoryOf(State(), field)) && (isNew ==> HistoryOf(State(), field) == []) {
        ChainPreserved(State(), field);
      }
      var historyFieldName := HistoryName(field);
      var currentHistory := if historyFieldName in histories then histories[historyFieldName] else [];
      var value := if field in values then values[field] else Undefined;
      var update: HistoryEntry;
      if isNew && Truthy(value) {
        update := HistoryEntry(Null, value);
      } else if field in modified {
        var before := LastAfter(currentHistory);
        update := HistoryEntry(before, value);
      } else {
        return;
      }
      histories := histories[historyFieldName := currentHistory + [update]];
    }

    /** The hook body, src/index.ts:29: the rule for each watched field in order. */
    method RunSaveHook(fields: seq<string>)
      modifies this
      ensures State() == AfterHook(old(State()), fields)
    {
      for i := 0 to |fields|
        invariant State() == AfterHook(old(State()), fields[..i])
      {
        UpdateHistoryForField(fields[i]);
        assert fields[..i + 1][..i] == fields[..i];
      }
      assert fields[..|fields|] == fields;
    }
  }
}
