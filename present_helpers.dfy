/** `stripStack` of src/presentHelpers.ts: before the CLI's JSON answer is
    shown, every `"stack"` entry is removed from every object in it, at any
    depth. A JSON value is a tree; an object is its entries in key order. */
module PresentHelpers {

  datatype Json =
    | Null
    | Bool(b: bool)
    | Num(n: int)
    | Str(s: string)
    | Arr(items: seq<Json>)
    | Obj(fields: seq<Member>)

  /** One entry of an object. */
  datatype Member = Member(key: string, value: Json)

  const StackKey := "stack"

  /** No object anywhere in `j` has a `"stack"` entry. */
  predicate NoStack(j: Json)
  {
    match j
    case Arr(items) => forall k :: 0 <= k < |items| ==> NoStack(items[k])
    case Obj(fields) => forall k :: 0 <= k < |fields| ==> fields[k].key != StackKey && NoStack(fields[k].value)
    case _ => true
  }

  /** The value `stripStack` leaves behind: primitives as they are, arrays
      element by element, objects without their `"stack"` entry and with
      every other entry processed, in key order. */
  function Stripped(j: Json): Json
    decreases j, 1
  {
    match j
    case Arr(items) => Arr(StrippedItems(items))
    case Obj(fields) => Obj(StrippedFields(fields))
    case _ => j
  }

  /** Lines 3-5: an array keeps its length and order, and each element is
      processed. */
  function StrippedItems(items: seq<Json>): (r: seq<Json>)
    ensures |r| == |items|
    ensures forall k :: 0 <= k < |items| ==> r[k] == Stripped(items[k])
    decreases items, 0
  {
    if |items| == 0 then []
    else StrippedItems(items[..|items| - 1]) + [Stripped(items[|items| - 1])]
  }

  /** Lines 7-8: an object loses its `"stack"` entry and keeps the others in
      order, each value processed. */
  function StrippedFields(fields: seq<Member>): (r: seq<Member>)
    ensures |r| <= |fields|
    ensures forall k :: 0 <= k < |r| ==> r[k].key != StackKey
    decreases fields, 0
  {
    if |fields| == 0 then []
    else
      var last := fields[|fields| - 1];
      StrippedFields(fields[..|fields| - 1])
        + if last.key == StackKey then [] else [Member(last.key, Stripped(last.value))]
  }

  /** The keys of an object's entries, in order. */
  function Keys(fields: seq<Member>): seq<string>
  {
    if |fields| == 0 then [] else Keys(fields[..|fields| - 1]) + [fields[|fields| - 1].key]
  }

  function Without(keys: seq<string>, key: string): seq<string>
  {
    if |keys| == 0 then []
    else Without(keys[..|keys| - 1], key) + if keys[|keys| - 1] == key then [] else [keys[|keys| - 1]]
  }

  /** Lines 7-8: the keys left are the old keys without `"stack"`, in their
      old order. */
  lemma {:induction false} StrippedKeys(fields: seq<Member>)
    ensures Keys(StrippedFields(fields)) == Without(Keys(fields), StackKey)
  {
    if |fields| > 0 {
      var init := fields[..|fields| - 1];
      var last := fields[|fields| - 1];
      StrippedKeys(init);
      var ks := Keys(fields);
      assert ks[..|ks| - 1] == Keys(init) && ks[|ks| - 1] == last.key;
      var r := StrippedFields(fields);
      if last.key != StackKey {
        assert r == StrippedFields(init) + [Member(last.key, Stripped(last.value))];
        assert r[..|r| - 1] == StrippedFields(init);
      } else {
        assert r == StrippedFields(init);
        assert Without(ks, StackKey) == Without(Keys(init), StackKey) + [];
      }
    }
  }

  /** Each entry left is an old entry with its value processed. */
  lemma {:induction false} StrippedFieldsFrom(fields: seq<Member>, k: nat)
    requires k < |StrippedFields(fields)|
    ensures exists i :: 0 <= i < |fields| && fields[i].key == StrippedFields(fields)[k].key
                        && StrippedFields(fields)[k].value == Stripped(fields[i].value)
  {
    var init := fields[..|fields| - 1];
    var last := fields[|fields| - 1];
    if k < |StrippedFields(init)| {
      StrippedFieldsFrom(init, k);
      var i :| 0 <= i < |init| && init[i].key == StrippedFields(init)[k].key
               && StrippedFields(init)[k].value == Stripped(init[i].value);
      assert fields[i] == init[i];
    } else {
      assert fields[|fields| - 1] == last;
    }
  }

  /** Lines 1-9: afterwards no object at any depth has a `"stack"` entry. */
  lemma {:induction false} StrippedNoStack(j: Json)
    ensures NoStack(Stripped(j))
    decreases j, 1
  {
    match j
    case Arr(items) =>
      forall k | 0 <= k < |items|
        ensures NoStack(Stripped(items[k]))
      {
        StrippedNoStack(items[k]);
      }
    case Obj(fields) =>
      StrippedFieldsNoStack(fields);
    case _ =>
  }

  lemma {:induction false} StrippedFieldsNoStack(fields: seq<Member>)
    ensures forall k :: 0 <= k < |StrippedFields(fields)| ==> NoStack(StrippedFields(fields)[k].value)
    decreases fields, 0
  {
    if |fields| > 0 {
      var init := fields[..|fields| - 1];
      var last := fields[|fields| - 1];
      StrippedFieldsNoStack(init);
      StrippedNoStack(last.value);
    }
  }

  /** Lines 1-9: a tree without `"stack"` entries is left as it is. */
  lemma {:induction false} StrippedFixed(j: Json)
    requires NoStack(j)
    ensures Stripped(j) == j
    decreases j, 1
  {
    match j
    case Arr(items) =>
      forall k | 0 <= k < |items|
        ensures Stripped(items[k]) == items[k]
      {
        StrippedFixed(items[k]);
      }
      assert StrippedItems(items) == items;
    case Obj(fields) =>
      StrippedFieldsFixed(fields);
    case _ =>
  }

  lemma {:induction false} StrippedFieldsFixed(fields: seq<Member>)
    requires forall k :: 0 <= k < |fields| ==> fields[k].key != StackKey && NoStack(fields[k].value)
    ensures StrippedFields(fields) == fields
    decreases fields, 0
  {
    if |fields| > 0 {
      var init := fields[..|fields| - 1];
      var last := fields[|fields| - 1];
      StrippedFieldsFixed(init);
      StrippedFixed(last.value);
    }
  }

  /** `stripStack` changes a tree exactly when the tree has a `"stack"`
      entry somewhere. */
  lemma StrippedUnchanged(j: Json)
    ensures Stripped(j) == j <==> NoStack(j)
  {
    StrippedNoStack(j);
    if NoStack(j) {
      StrippedFixed(j);
    }
  }

  /** Running `stripStack` twice is the same as once. */
  lemma StrippedIdempotent(j: Json)
    ensures Stripped(Stripped(j)) == Stripped(j)
  {
    StrippedNoStack(j);
    StrippedFixed(Stripped(j));
  }

  /** Lines 1-9, walking the tree as the source does: arrays element by
      element, objects entry by entry in key order, the `"stack"` entry
      dropped. */
  method StripStack(j: Json) returns (r: Json)
    ensures r == Stripped(j)
    decreases j
  {
    match j {
      case Arr(items) =>
        var out: seq<Json> := [];
        var i := 0;
        while i < |items|
          invariant 0 <= i <= |items|
          invariant out == StrippedItems(items[..i])
        {
          var x := StripStack(items[i]);
          assert items[..i + 1][..i] == items[..i];
          out := out + [x];
          i := i + 1;
        }
        assert items[..i] == items;
        r := Arr(out);
      case Obj(fields) =>
        var out: seq<Member> := [];
        var i := 0;
        while i < |fields|
          invariant 0 <= i <= |fields|
          invariant out == StrippedFields(fields[..i])
        {
          var Member(key, value) := fields[i];
          assert fields[..i + 1][..i] == fields[..i];
          if key != StackKey {
            var v := StripStack(value);
            out := out + [Member(key, v)];
          }
          i := i + 1;
        }
        assert fields[..i] == fields;
        r := Obj(out);
      case _ =>
        r := j;
    }
  }
}
