/**
  Documents as lib/mongo-comparator.js and lib/helper.js see them: an `_id` and other fields,
  compared by deep equality, and looked up by `_id` the way `Array.prototype.find` does.
 */
module Documents {
  import opened Results

  /** An `_id`; only its identity matters, which is what `ObjectId.equals` compares. */
  type ObjectId = nat

  /** A field value, as far as deep equality looks into it. */
  datatype Value =
    | Null
    | Bool(b: bool)
    | Number(n: int)
    | Str(s: string)
    | Id(id: ObjectId)
    | List(items: seq<Value>)
    | Object(fields: map<string, Value>)

  /** A document: its `_id` and its other fields. Dafny's `==` on it stands for lodash's isEqual. */
  datatype Doc = Doc(id: ObjectId, fields: map<string, Value>)

  /** `docs.find(d => d._id.equals(id))`: the first document with that id, if any. */
  function FindById(docs: seq<Doc>, id: ObjectId): (r: Option<Doc>)
    ensures r.Some? ==> r.value.id == id && r.value in docs
  {
    if docs == [] then None
    else if docs[0].id == id then Some(docs[0])
    else FindById(docs[1..], id)
  }

  /** No two documents share an `_id`, as in any MongoDB collection. */
  ghost predicate UniqueIds(docs: seq<Doc>) {
    forall i, j | 0 <= i < j < |docs| :: docs[i].id != docs[j].id
  }

  /**
    FindById finds nothing exactly when no document has the id, and otherwise finds the
    document at the first position holding that id.
   */
  lemma {:induction false} FindByIdFirst(docs: seq<Doc>, id: ObjectId)
    ensures FindById(docs, id).None? <==> forall j | 0 <= j < |docs| :: docs[j].id != id
    ensures FindById(docs, id).Some? ==>
      exists j | 0 <= j < |docs| :: docs[j] == FindById(docs, id).value &&
        forall k | 0 <= k < j :: docs[k].id != id
  {
    if docs != [] && docs[0].id != id {
      FindByIdFirst(docs[1..], id);
      if FindById(docs, id).Some? {
        var j :| 0 <= j < |docs| - 1 && docs[1..][j] == FindById(docs, id).value &&
          forall k | 0 <= k < j :: docs[1..][k].id != id;
        assert docs[j + 1] == FindById(docs, id).value;
        assert forall k | 0 <= k < j + 1 :: docs[k].id != id by {
          forall k | 0 <= k < j + 1 ensures docs[k].id != id {
            if k > 0 { assert docs[k] == docs[1..][k - 1]; }
          }
        }
      }
    }
  }

  /** A document with no earlier document of the same id is the one FindById returns. */
  lemma {:induction false} FindByIdAt(docs: seq<Doc>, j: nat)
    requires j < |docs| && forall k | 0 <= k < j :: docs[k].id != docs[j].id
    ensures FindById(docs, docs[j].id) == Some(docs[j])
  {
    if j > 0 {
      assert docs[j] == docs[1..][j - 1];
      assert forall k | 0 <= k < j - 1 :: docs[1..][k] == docs[k + 1];
      FindByIdAt(docs[1..], j - 1);
    }
  }

  /** With unique ids, looking up the id of a member finds that very member. */
  lemma FindUnique(docs: seq<Doc>, d: Doc)
    requires UniqueIds(docs) && d in docs
    ensures FindById(docs, d.id) == Some(d)
  {
    var j :| 0 <= j < |docs| && docs[j] == d;
    FindByIdAt(docs, j);
  }

  /** With unique ids, looking up an id finds a member exactly when some member has it. */
  lemma FindUniqueIff(docs: seq<Doc>, d: Doc)
    requires UniqueIds(docs)
    ensures FindById(docs, d.id) == Some(d) <==> d in docs
  {
    if d in docs {
      FindUnique(docs, d);
    }
  }
}
