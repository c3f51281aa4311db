/** `generateHistoryFieldsDefinitions`: one `<field>_history` schema
    definition per watched field, merged into a single table. */
module HistoryDefinitions {

  /** What a schema holds under a field name. `Declared` abstracts whatever
      definition object the user wrote (`String`, `{ type: Number }`, ...);
      `Undeclared` is `schema.obj[field]` being undefined (a nested path);
      `EntryArray` is an array of history-entry sub-documents. */
  datatype TypeDesc =
    | Declared(decl: string)
    | Undeclared
    | DateType
    | EntryArray(entry: EntryDesc)

  /** The shape of one history entry: `before` and `after` carry the watched
      field's type, `timestamp` is a date. */
  datatype EntryDesc = EntryDesc(before: TypeDesc, after: TypeDesc, timestamp: TypeDesc)

  /** The name of the history log of `field`: the field's name followed by
      the suffix `_history`. */
  function HistoryName(field: string): (name: string)
    ensures |name| == |field| + 8
    ensures name[..|field|] == field && name[|field|..] == "_history"
  {
    field + "_history"
  }

  /** Two fields share a history log name exactly when they are the same field. */
  lemma HistoryNameInjective(f: string, g: string)
    ensures HistoryName(f) == HistoryName(g) <==> f == g
  {
    if |f| != |g| {
      assert |HistoryName(f)| != |HistoryName(g)|;
    } else if f != g {
      assert HistoryName(f)[..|f|] != HistoryName(g)[..|g|];
    }
  }

  /** No field name occurs twice in the list. */
  predicate Distinct(fields: seq<string>) {
    forall i, j :: 0 <= i < j < |fields| ==> fields[i] != fields[j]
  }

  /** `schema.obj[field]`. */
  function DeclaredType(obj: map<string, TypeDesc>, field: string): TypeDesc {
    if field in obj then obj[field] else Undeclared
  }

  /** The definition stored under `<field>_history`. */
  function HistoryType(obj: map<string, TypeDesc>, field: string): TypeDesc {
    EntryArray(EntryDesc(DeclaredType(obj, field), DeclaredType(obj, field), DateType))
  }

  /** The one-key table built for a single field by `fields.map`. */
  function FieldDefinition(obj: map<string, TypeDesc>, field: string): map<string, TypeDesc> {
    map[HistoryName(field) := HistoryType(obj, field)]
  }

  /** `fields.map(...)`: one single-key table per watched field, in order. */
  function FieldDefinitions(obj: map<string, TypeDesc>, fields: seq<string>): seq<map<string, TypeDesc>> {
    seq(|fields|, i requires 0 <= i < |fields| => FieldDefinition(obj, fields[i]))
  }

  /** Ramda's `mergeAll`: left to right, a later table wins on a shared key. */
  function MergeAll(ms: seq<map<string, TypeDesc>>): (r: map<string, TypeDesc>)
    ensures forall m :: m in ms ==> m.Keys <= r.Keys
    ensures ms != [] ==> forall k :: k in ms[|ms| - 1] ==> r[k] == ms[|ms| - 1][k]
  {
    if ms == [] then map[] else ms[0] + MergeAll(ms[1..])
  }

  /** Every key of a part is a key of the merge. */
  lemma {:induction false} MergeAllHas(ms: seq<map<string, TypeDesc>>, i: nat, k: string)
    requires i < |ms| && k in ms[i]
    ensures k in MergeAll(ms)
  {
    if i > 0 {
      MergeAllHas(ms[1..], i - 1, k);
    }
  }

  /** Every key of the merge takes its value from the last part that holds it. */
  lemma {:induction false} MergeAllFrom(ms: seq<map<string, TypeDesc>>, k: string)
    requires k in MergeAll(ms)
    ensures exists j :: 0 <= j < |ms| && k in ms[j] && MergeAll(ms)[k] == ms[j][k]
                        && forall j' :: j < j' < |ms| ==> k !in ms[j']
  {
    if k !in MergeAll(ms[1..]) {
      forall j' | 0 < j' < |ms| ensures k !in ms[j'] {
        assert ms[j'] == ms[1..][j' - 1];
        assert ms[j'] in ms[1..];
      }
      assert k in ms[0] && MergeAll(ms)[k] == ms[0][k];
    } else {
      MergeAllFrom(ms[1..], k);
      var j :| 0 <= j < |ms[1..]| && k in ms[1..][j] && MergeAll(ms[1..])[k] == ms[1..][j][k]
               && forall j' :: j < j' < |ms[1..]| ==> k !in ms[1..][j'];
      forall j' | j + 1 < j' < |ms| ensures k !in ms[j'] {
        assert ms[j'] == ms[1..][j' - 1];
      }
      assert k in ms[j + 1] && MergeAll(ms)[k] == ms[j + 1][k];
    }
  }

  /** The table `schema.add` receives (src/index.ts:43-65). */
  function GenerateDefinitions(obj: map<string, TypeDesc>, fields: seq<string>): (defs: map<string, TypeDesc>)
    ensures forall f :: f in fields ==> HistoryName(f) in defs
  {
    var ds := FieldDefinitions(obj, fields);
    assert forall f :: f in fields ==> FieldDefinition(obj, f) in ds by {
      forall f | f in fields ensures FieldDefinition(obj, f) in ds {
        var i :| 0 <= i < |fields| && fields[i] == f;
        assert ds[i] == FieldDefinition(obj, f);
      }
    }
    MergeAll(ds)
  }

  /** The synthesized table holds exactly the history names of the watched
      fields, each typed after its own watched field. */
  lemma GenerateDefinitionsExact(obj: map<string, TypeDesc>, fields: seq<string>)
    ensures forall f :: f in fields ==>
              HistoryName(f) in GenerateDefinitions(obj, fields) &&
              GenerateDefinitions(obj, fields)[HistoryName(f)] == HistoryType(obj, f)
    ensures forall k :: k in GenerateDefinitions(obj, fields) ==>
              exists f :: f in fields && k == HistoryName(f)
  {
    var ds := FieldDefinitions(obj, fields);
    var defs := GenerateDefinitions(obj, fields);
    forall f | f in fields
      ensures HistoryName(f) in defs && defs[HistoryName(f)] == HistoryType(obj, f)
    {
      var i :| 0 <= i < |fields| && fields[i] == f;
      MergeAllHas(ds, i, HistoryName(f));
      MergeAllFrom(ds, HistoryName(f));
      var j :| 0 <= j < |ds| && HistoryName(f) in ds[j] && defs[HistoryName(f)] == ds[j][HistoryName(f)];
      HistoryNameInjective(f, fields[j]);
    }
    forall k | k in defs
      ensures exists f :: f in fields && k == HistoryName(f)
    {
      MergeAllFrom(ds, k);
      var j :| 0 <= j < |ds| && k in ds[j] && defs[k] == ds[j][k];
      assert fields[j] in fields && k == HistoryName(fields[j]);
    }
  }

  /** Peeling off the first watched field: its table merged under the rest. */
  lemma GenerateDefinitionsUnfold(obj: map<string, TypeDesc>, fields: seq<string>)
    requires fields != []
    ensures GenerateDefinitions(obj, fields)
         == FieldDefinition(obj, fields[0]) + GenerateDefinitions(obj, fields[1..])
  {
    assert FieldDefinitions(obj, fields)[1..] == FieldDefinitions(obj, fields[1..]);
  }

  /** The first of distinct watched fields has its log name nowhere in the
      table built from the others. */
  lemma FirstNameFresh(obj: map<string, TypeDesc>, fields: seq<string>)
    requires fields != []
    requires forall j :: 0 < j < |fields| ==> fields[j] != fields[0]
    ensures HistoryName(fields[0]) !in GenerateDefinitions(obj, fields[1..])
  {
    GenerateDefinitionsExact(obj, fields[1..]);
    forall g | g in fields[1..] ensures HistoryName(g) != HistoryName(fields[0]) {
      HistoryNameInjective(g, fields[0]);
    }
  }

  /** Distinct watched fields give a table with exactly one definition each. */
  lemma {:induction false} GenerateDefinitionsCount(obj: map<string, TypeDesc>, fields: seq<string>)
    requires Distinct(fields)
    ensures |GenerateDefinitions(obj, fields)| == |fields|
  {
    if fields != [] {
      var rest := GenerateDefinitions(obj, fields[1..]);
      var head := HistoryName(fields[0]);
      assert Distinct(fields[1..]) by {
        forall i, j | 0 <= i < j < |fields[1..]| ensures fields[1..][i] != fields[1..][j] {
          assert fields[1..][i] == fields[i + 1] && fields[1..][j] == fields[j + 1];
        }
      }
      GenerateDefinitionsCount(obj, fields[1..]);
      FirstNameFresh(obj, fields);
      GenerateDefinitionsUnfold(obj, fields);
      assert GenerateDefinitions(obj, fields).Keys == rest.Keys + {head};
    }
  }
}
