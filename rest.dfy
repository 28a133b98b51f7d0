/** `Handler.jsonify` and `Handler.jsonify_list` (app/rest/rest.py): before a
    document is serialised, its `_id` key is replaced by an `id` key holding
    the text of the old value. The serialisation itself is not modelled; a
    document here is the dictionary that the handler mutates in place. */
module Rest {

  /** The values a document field may hold in this model. */
  datatype Value = ObjectId(hex: string) | Str(s: string) | Null

  /** Python's `str` of a value: an ObjectId gives its hexadecimal text, a
      string itself, and null the word `None`. */
  function Text(v: Value): (r: string)
    ensures v.ObjectId? ==> r == v.hex
    ensures v.Str? ==> r == v.s
    ensures v.Null? ==> r == "None"
  {
    match v
    case ObjectId(hex) => hex
    case Str(s) => s
    case Null => "None"
  }

  const IdKey: string := "_id"
  const PublicIdKey: string := "id"

  /** The document after `doc['id'] = str(doc.pop('_id'))`, when it has an `_id`. */
  function Renamed(doc: map<string, Value>): (r: map<string, Value>)
    // No `_id` survives.
    ensures IdKey !in r
    // `id` holds the old `_id` as text, replacing any `id` there was.
    ensures IdKey in doc ==> PublicIdKey in r && r[PublicIdKey] == Str(Text(doc[IdKey]))
    // Without an `_id` the document is untouched.
    ensures IdKey !in doc ==> r == doc
    // Every other key keeps its value, and no key is added.
    ensures forall k :: k != IdKey && k != PublicIdKey ==> (k in r <==> k in doc) && (k in r ==> r[k] == doc[k])
    ensures r.Keys <= (doc.Keys - {IdKey}) + {PublicIdKey}
  {
    if IdKey in doc then (doc - {IdKey})[PublicIdKey := Str(Text(doc[IdKey]))] else doc
  }

  /** Renaming twice is renaming once. */
  lemma RenamedIdempotent(doc: map<string, Value>)
    ensures Renamed(Renamed(doc)) == Renamed(doc)
  {
  }

  /** A document the handler mutates in place. */
  class Document {
    var fields: map<string, Value>

    constructor (fields: map<string, Value>)
      ensures this.fields == fields
    {
      this.fields := fields;
    }

    /** The renaming step of `jsonify(doc)`. */
    method Jsonify()
      modifies this
      ensures fields == Renamed(old(fields))
    {
      if IdKey in fields {
        var value := fields[IdKey];
        fields := fields - {IdKey};
        fields := fields[PublicIdKey := Str(Text(value))];
      }
    }
  }

  /** The renaming loop of `jsonify_list(docs)`: every document is renamed in
      place and appended, in order, to the list that is serialised. The same
      document object met twice is renamed once, as renaming is idempotent. */
  method JsonifyList(docs: seq<Document>) returns (data: seq<Document>)
    modifies set d | d in docs
    ensures data == docs
    ensures forall k :: 0 <= k < |docs| ==> docs[k].fields == Renamed(old(docs[k].fields))
  {
    data := [];
    for i := 0 to |docs|
      invariant data == docs[..i]
      invariant forall k :: 0 <= k < |docs| ==>
        docs[k].fields == if docs[k] in docs[..i] then Renamed(old(docs[k].fields)) else old(docs[k].fields)
    {
      var doc := docs[i];
      RenamedIdempotent(old(doc.fields));
      doc.Jsonify();
      data := data + [doc];
      assert docs[..i + 1] == docs[..i] + [doc];
    }
    assert docs[..|docs|] == docs;
  }
}
