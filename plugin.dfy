/** `noteKeeperPlugin` (src/index.ts:9-31): validate the options, add the
    history definitions to the schema and register the pre-save hook. */
module Plugin {
  import opened Validation
  import opened HistoryDefinitions

  /** A registered pre-save hook; the only kind this plugin registers runs
      the recorder over its watched fields (Documents.Document.RunSaveHook). */
  datatype SaveHook = HistoryHook(fields: seq<string>)

  class Schema {
    /** The paths `schema.path` resolves. */
    var paths: set<string>
    /** `schema.obj`: the definition held under each top-level key. */
    var obj: map<string, TypeDesc>
    /** The pre-save hooks, in registration order. */
    var preSave: seq<SaveHook>

    constructor (paths: set<string>, obj: map<string, TypeDesc>)
      ensures this.paths == paths && this.obj == obj && preSave == []
    {
      this.paths := paths;
      this.obj := obj;
      preSave := [];
    }

    /** Runs the four checks before anything else; on failure the schema is
        untouched, on success each watched field gains its `_history` path
        and one hook is registered. */
    method ApplyPlugin(fields: FieldsOption) returns (r: Result<seq<string>>)
      modifies this
      ensures r == Validate(fields, old(paths))
      ensures r.Err? ==> paths == old(paths) && obj == old(obj) && preSave == old(preSave)
      ensures r.Ok? ==>
        && obj == old(obj) + GenerateDefinitions(old(obj), r.value)
        && paths == old(paths) + GenerateDefinitions(old(obj), r.value).Keys
        && preSave == old(preSave) + [HistoryHook(r.value)]
      ensures r.Ok? ==> forall f :: f in r.value ==>
        && HistoryName(f) in paths && HistoryName(f) in obj
        && obj[HistoryName(f)] == HistoryType(old(obj), f)
      ensures r.Ok? ==> forall k :: (k in old(obj) && (forall f :: f in r.value ==> k != HistoryName(f)))
                                    ==> (k in obj && obj[k] == old(obj)[k])
    {
      r := Validate(fields, paths);
      if r.Err? {
        return;
      }
      var definitions := GenerateDefinitions(obj, r.value);
      GenerateDefinitionsExact(obj, r.value);
      obj := obj + definitions;
      paths := paths + definitions.Keys;
      preSave := preSave + [HistoryHook(r.value)];
    }
  }
}
