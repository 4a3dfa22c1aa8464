/**
 * swssconfig: loads a JSON document of database items and writes them to the
 * application database.
 *
 * The document is an array of objects. Each object has exactly two members:
 * one whose value is an object (its name is the "table:key" string, its
 * members are the field/value pairs) and one named "OP" (the operation).
 * Loading turns every element into a key/op/field-values tuple; writing splits
 * each key at its first ':' and issues a set or a del on that table.
 *
 * The database is replaced by the log of writes issued against it.
 */
module SwssConfig {
  import opened Wrappers
  import opened Json
  import Decimal

  const OpName: string := "OP"
  const NameDelimiter: char := ':'
  /** Number of members every element object must have. */
  const ElCount: nat := 2
  const SetCommand: string := "SET"
  const DelCommand: string := "DEL"

  datatype FieldValue = FieldValue(field: string, value: string)

  /** One database item: its "table:key" key, its operation and its fields. */
  datatype KeyOpFieldsValues = KeyOpFieldsValues(key: string, op: string, fields: seq<FieldValue>)

  /** The default-constructed tuple pushed before an element's members are read. */
  const EmptyItem := KeyOpFieldsValues("", "", [])

  /** How loading ended: success, a `false` return, or the exception that
      reading a non-string "OP" value raises. */
  datatype LoadStatus = Loaded | Invalid | TypeError

  // ---------------------------------------------------------------------------
  // Loading: the reference definition
  // ---------------------------------------------------------------------------

  /** The text stored for an inner member's value. */
  function ValueText(v: Value): (t: string)
    ensures v.Number? ==> Decimal.Canonical(t) && (t[0] == '-' <==> Decimal.ToInt32(v.n) < 0)
                          && Decimal.ParseInt(t) == Decimal.ToInt32(v.n)
    ensures v.String? ==> t == v.s
    ensures !v.Number? && !v.String? ==> t == ""
  {
    match v
    case Number(n) =>
      Decimal.IntTextRoundTrip(Decimal.ToInt32(n));
      Decimal.IntText(Decimal.ToInt32(n))
    case String(s) => s
    case _ => ""
  }

  function FieldOf(m: Member): FieldValue {
    FieldValue(m.name, ValueText(m.value))
  }

  /** The field/value pairs an object-valued member contributes, in iteration order. */
  function FieldValues(inner: seq<Member>): (fvs: seq<FieldValue>)
    ensures |fvs| == |inner|
    ensures forall k :: 0 <= k < |inner| ==> fvs[k] == FieldOf(inner[k])
  {
    seq(|inner|, k requires 0 <= k < |inner| => FieldOf(inner[k]))
  }

  /** Where reading an element's members has got to: the status so far and
      the tuple as it has been filled in. */
  datatype Progress = Progress(status: LoadStatus, item: KeyOpFieldsValues)

  /** Reads the members `ms` of one element into `item`, left to right. An
      object-valued member sets the key and appends its fields; any other
      member must be "OP" with a string value, which becomes the op. */
  function ApplyMembers(ms: seq<Member>, item: KeyOpFieldsValues): Progress
  {
    if ms == [] then Progress(Loaded, item)
    else
      var m := ms[0];
      if m.value.Object? then
        ApplyMembers(ms[1..], item.(key := m.name, fields := item.fields + FieldValues(m.value.members)))
      else if m.name != OpName then Progress(Invalid, item)
      else if m.value.String? then ApplyMembers(ms[1..], item.(op := m.value.s))
      else Progress(TypeError, item)
  }

  /** The status of loading and the tuples appended so far. */
  datatype Loading = Loading(status: LoadStatus, items: seq<KeyOpFieldsValues>)

  /** One array element: rejected outright unless it is an object with
      exactly two members; otherwise its tuple is appended and then filled. */
  function LoadElement(e: Value): Loading
  {
    if !e.Object? || |e.members| != ElCount then Loading(Invalid, [])
    else
      var p := ApplyMembers(e.members, EmptyItem);
      Loading(p.status, [p.item])
  }

  /** The array elements in order, stopping at the first that fails. */
  function LoadElements(es: seq<Value>): Loading
  {
    if es == [] then Loading(Loaded, [])
    else
      var h := LoadElement(es[0]);
      if h.status != Loaded then h
      else
        var t := LoadElements(es[1..]);
        Loading(t.status, h.items + t.items)
  }

  /** The whole document: the root must be an array. */
  function LoadJson(root: Value): Loading
  {
    if root.Array? then LoadElements(root.elems) else Loading(Invalid, [])
  }

  // ---------------------------------------------------------------------------
  // Loading: the independent acceptance rule and its properties
  // ---------------------------------------------------------------------------

  /** A member the loader accepts: object-valued, or "OP" with a string. */
  predicate GoodMember(m: Member) {
    m.value.Object? || (m.name == OpName && m.value.String?)
  }

  /** An element the loader accepts. */
  predicate GoodElement(e: Value) {
    e.Object? && |e.members| == ElCount &&
    forall k :: 0 <= k < |e.members| ==> GoodMember(e.members[k])
  }

  /** Reading members succeeds exactly when every member is acceptable; the
      first unacceptable member decides between a `false` return (its name is
      not "OP") and an exception (an "OP" whose value is not a string). */
  lemma {:induction false} ApplyMembersStatus(ms: seq<Member>, item: KeyOpFieldsValues)
    ensures ApplyMembers(ms, item).status == Loaded <==>
              forall k :: 0 <= k < |ms| ==> GoodMember(ms[k])
    ensures forall j :: 0 <= j < |ms| && !GoodMember(ms[j]) &&
                        (forall k :: 0 <= k < j ==> GoodMember(ms[k])) ==>
              ApplyMembers(ms, item).status == (if ms[j].name == OpName then TypeError else Invalid)
  {
    if ms != [] {
      var m := ms[0];
      if m.value.Object? {
        ApplyMembersStatus(ms[1..], item.(key := m.name, fields := item.fields + FieldValues(m.value.members)));
        ApplyMembersShift(ms);
      } else if m.name == OpName && m.value.String? {
        ApplyMembersStatus(ms[1..], item.(op := m.value.s));
        ApplyMembersShift(ms);
      }
    }
  }

  /** Index bookkeeping for the recursive step of ApplyMembersStatus. */
  lemma ApplyMembersShift(ms: seq<Member>)
    requires ms != [] && GoodMember(ms[0])
    ensures (forall k :: 0 <= k < |ms| ==> GoodMember(ms[k])) <==>
            (forall k :: 0 <= k < |ms[1..]| ==> GoodMember(ms[1..][k]))
    ensures forall j :: 0 <= j < |ms| && !GoodMember(ms[j]) &&
                        (forall k :: 0 <= k < j ==> GoodMember(ms[k])) ==>
              0 < j && !GoodMember(ms[1..][j - 1]) &&
              (forall k :: 0 <= k < j - 1 ==> GoodMember(ms[1..][k])) && ms[1..][j - 1] == ms[j]
  {
  }

  /** Loading succeeds exactly when the root is an array and every element is
      an object of two acceptable members. */
  lemma LoadJsonSucceedsIff(root: Value)
    ensures LoadJson(root).status == Loaded <==>
              root.Array? && forall i :: 0 <= i < |root.elems| ==> GoodElement(root.elems[i])
  {
    if root.Array? {
      LoadElementsSucceedsIff(root.elems);
    }
  }

  lemma {:induction false} LoadElementsSucceedsIff(es: seq<Value>)
    ensures LoadElements(es).status == Loaded <==> forall i :: 0 <= i < |es| ==> GoodElement(es[i])
  {
    if es != [] {
      LoadElementStatus(es[0]);
      LoadElementsSucceedsIff(es[1..]);
      if LoadElement(es[0]).status == Loaded {
        assert forall i :: 1 <= i < |es| ==> es[i] == es[1..][i - 1];
      }
    }
  }

  lemma LoadElementStatus(e: Value)
    ensures LoadElement(e).status == Loaded <==> GoodElement(e)
    ensures |LoadElement(e).items| == if e.Object? && |e.members| == ElCount then 1 else 0
  {
    if e.Object? && |e.members| == ElCount {
      ApplyMembersStatus(e.members, EmptyItem);
    }
  }

  /** On success there is exactly one tuple per array element, in array order,
      each one the element's members read into a fresh tuple. */
  lemma {:induction false} LoadElementsOnePerElement(es: seq<Value>)
    requires LoadElements(es).status == Loaded
    ensures |LoadElements(es).items| == |es|
    ensures forall i :: 0 <= i < |es| ==>
              es[i].Object? && LoadElements(es).items[i] == ApplyMembers(es[i].members, EmptyItem).item
  {
    if es != [] {
      LoadElementsOnePerElement(es[1..]);
      var r := LoadElements(es);
      forall i | 1 <= i < |es|
        ensures es[i].Object? && r.items[i] == ApplyMembers(es[i].members, EmptyItem).item
      {
        assert es[i] == es[1..][i - 1];
      }
    }
  }

  /** When element `k` is the first one the loader refuses, loading fails,
      the tuples of the earlier elements are kept, and if element `k` got as far
      as having its tuple pushed (an object with two members) that partly
      filled tuple is kept too. */
  lemma {:induction false} LoadElementsStopsAt(es: seq<Value>, k: nat)
    requires k < |es| && !GoodElement(es[k])
    requires forall i :: 0 <= i < k ==> GoodElement(es[i])
    ensures LoadElements(es).status != Loaded
    ensures LoadElements(es).status == LoadElement(es[k]).status
    ensures |LoadElements(es).items| == k + (if es[k].Object? && |es[k].members| == ElCount then 1 else 0)
    ensures forall i :: 0 <= i < k ==>
              GoodElement(es[i]) && LoadElements(es).items[i] == ApplyMembers(es[i].members, EmptyItem).item
    ensures es[k].Object? && |es[k].members| == ElCount ==>
              LoadElements(es).items[k] == ApplyMembers(es[k].members, EmptyItem).item
  {
    LoadElementStatus(es[0]);
    if k > 0 {
      assert forall i :: 0 <= i < k - 1 ==> es[1..][i] == es[i + 1];
      LoadElementsStopsAt(es[1..], k - 1);
      var r := LoadElements(es);
      forall i | 1 <= i < k
        ensures r.items[i] == ApplyMembers(es[i].members, EmptyItem).item
      {
        assert es[i] == es[1..][i - 1];
      }
    }
  }

  /** The usual element: the object-valued member names the tuple and
      supplies its fields, the "OP" member supplies the op, in either order. */
  lemma KeyAndOpElement(key: string, inner: seq<Member>, op: string)
    ensures var e := Object([Member(key, Object(inner)), Member(OpName, String(op))]);
            LoadElement(e) == Loading(Loaded, [KeyOpFieldsValues(key, op, FieldValues(inner))])
    ensures var e := Object([Member(OpName, String(op)), Member(key, Object(inner))]);
            LoadElement(e) == Loading(Loaded, [KeyOpFieldsValues(key, op, FieldValues(inner))])
  {
    var item := KeyOpFieldsValues(key, op, FieldValues(inner));
    var withKey := EmptyItem.(key := key, fields := [] + FieldValues(inner));
    assert withKey.(op := op) == item;
    var a := [Member(key, Object(inner)), Member(OpName, String(op))];
    assert a[1..] == [a[1]] && a[1..][1..] == [];
    assert ApplyMembers(a[1..][1..], item) == Progress(Loaded, item);
    assert ApplyMembers(a[1..], withKey) == Progress(Loaded, item);
    assert ApplyMembers(a, EmptyItem) == Progress(Loaded, item);
    var b := [Member(OpName, String(op)), Member(key, Object(inner))];
    var withOp := EmptyItem.(op := op);
    assert withOp.(key := key, fields := withOp.fields + FieldValues(inner)) == item;
    assert b[1..] == [b[1]] && b[1..][1..] == [];
    assert ApplyMembers(b[1..][1..], item) == Progress(Loaded, item);
    assert ApplyMembers(b[1..], withOp) == Progress(Loaded, item);
    assert ApplyMembers(b, EmptyItem) == Progress(Loaded, item);
  }

  /** Two object-valued members are accepted: the second name overwrites the
      key, the fields of both are concatenated and the op stays empty. */
  lemma TwoObjectElement(k1: string, in1: seq<Member>, k2: string, in2: seq<Member>)
    ensures var e := Object([Member(k1, Object(in1)), Member(k2, Object(in2))]);
            LoadElement(e) == Loading(Loaded, [KeyOpFieldsValues(k2, "", FieldValues(in1) + FieldValues(in2))])
  {
    var item := KeyOpFieldsValues(k2, "", FieldValues(in1) + FieldValues(in2));
    var first := EmptyItem.(key := k1, fields := [] + FieldValues(in1));
    assert first.(key := k2, fields := first.fields + FieldValues(in2)) == item;
    var a := [Member(k1, Object(in1)), Member(k2, Object(in2))];
    assert a[1..] == [a[1]] && a[1..][1..] == [];
    assert ApplyMembers(a[1..][1..], item) == Progress(Loaded, item);
    assert ApplyMembers(a[1..], first) == Progress(Loaded, item);
    assert ApplyMembers(a, EmptyItem) == Progress(Loaded, item);
  }

  // ---------------------------------------------------------------------------
  // Loading: the loop
  // ---------------------------------------------------------------------------

  /** Appends one field/value pair per inner member to the tuple's fields:
      numbers as their 32-bit decimal text, strings as they are, anything
      else as the empty string. */
  method AppendFieldValues(item: KeyOpFieldsValues, inner: seq<Member>) returns (item': KeyOpFieldsValues)
    ensures item' == item.(fields := item.fields + FieldValues(inner))
  {
    item' := item;
    var k := 0;
    while k < |inner|
      invariant 0 <= k <= |inner|
      invariant item' == item.(fields := item.fields + FieldValues(inner[..k]))
    {
      var fieldStr := inner[k].name;
      var valueStr := "";
      if inner[k].value.Number? {
        valueStr := Decimal.IntText(Decimal.ToInt32(inner[k].value.n));
      } else if inner[k].value.String? {
        valueStr := inner[k].value.s;
      }
      assert FieldValues(inner[..k + 1]) == FieldValues(inner[..k]) + [FieldValue(fieldStr, valueStr)];
      item' := item'.(fields := item'.fields + [FieldValue(fieldStr, valueStr)]);
      k := k + 1;
    }
    assert inner[..k] == inner;
  }

  /** Reads an element's members, in iteration order, into the tuple that was
      pushed for it, stopping at the first member that is neither
      object-valued nor "OP" (status Invalid) or that is an "OP" whose value
      is not a string (status TypeError, where `get<string>()` throws). The
      returned tuple is the one as far as it got filled. */
  method ReadMembers(ms: seq<Member>, item: KeyOpFieldsValues) returns (status: LoadStatus, item': KeyOpFieldsValues)
    ensures Progress(status, item') == ApplyMembers(ms, item)
  {
    item' := item;
    var j := 0;
    while j < |ms|
      invariant 0 <= j <= |ms|
      invariant ApplyMembers(ms, item) == ApplyMembers(ms[j..], item')
    {
      assert ms[j..][0] == ms[j] && ms[j..][1..] == ms[j + 1..];
      var curKey := ms[j].name;
      var curObj := ms[j].value;
      if curObj.Object? {
        item' := item'.(key := curKey);
        item' := AppendFieldValues(item', curObj.members);
      } else {
        if OpName != curKey {
          return Invalid, item';
        }
        if !curObj.String? {
          return TypeError, item';
        }
        item' := item'.(op := curObj.s);
      }
      j := j + 1;
    }
    return Loaded, item';
  }

  /** `load_json_db_data` on an already parsed document: appends one tuple per
      element to `dbItems` and returns at the first element it refuses. The
      tuple of an element is pushed before its members are read, so a refused
      two-member object leaves its partly filled tuple behind. */
  method LoadJsonDbData(root: Value, dbItems: seq<KeyOpFieldsValues>)
    returns (status: LoadStatus, items: seq<KeyOpFieldsValues>)
    ensures status == LoadJson(root).status
    ensures items == dbItems + LoadJson(root).items
  {
    items := dbItems;
    if !root.Array? {
      return Invalid, items;
    }
    var es := root.elems;
    ghost var done: seq<KeyOpFieldsValues> := [];
    var i := 0;
    while i < |es|
      invariant 0 <= i <= |es|
      invariant items == dbItems + done
      invariant LoadElements(es) == Continue(done, LoadElements(es[i..]))
    {
      assert es[i..][0] == es[i] && es[i..][1..] == es[i + 1..];
      var arrItem := es[i];
      if !arrItem.Object? {
        return Invalid, items;
      }
      if ElCount != |arrItem.members| {
        return Invalid, items;
      }
      items := items + [EmptyItem];
      var last := |items| - 1;
      // the members are read into the tuple just pushed, in place
      var st, cur := ReadMembers(arrItem.members, items[last]);
      items := items[last := cur];
      assert LoadElement(arrItem) == Loading(st, [cur]);
      AppendAssoc(dbItems, done, [cur]);
      if st != Loaded {
        return st, items;
      }
      AppendAssoc(done, [cur], LoadElements(es[i + 1..]).items);
      done := done + [cur];
      i := i + 1;
    }
    return Loaded, items;
  }

  /** Regrouping a concatenation. */
  lemma AppendAssoc<T>(a: seq<T>, b: seq<T>, c: seq<T>)
    ensures a + (b + c) == (a + b) + c
  {
  }

  /** The outcome of the remaining elements, after the tuples already appended. */
  function Continue(done: seq<KeyOpFieldsValues>, rest: Loading): Loading {
    Loading(rest.status, done + rest.items)
  }

  // ---------------------------------------------------------------------------
  // Writing
  // ---------------------------------------------------------------------------

  /** One write issued against the application database. */
  datatype DbWrite =
    | Set(table: string, key: string, fields: seq<FieldValue>)
    | Del(table: string, key: string)

  /** `std::string::find` of a single character: its first position, if any. */
  function FindFirst(s: string, c: char): (r: Option<nat>)
    ensures r.None? <==> c !in s
    ensures r.Some? ==> r.value < |s| && s[r.value] == c && c !in s[..r.value]
  {
    if s == [] then None
    else if s[0] == c then Some(0)
    else match FindFirst(s[1..], c)
      case None => None
      case Some(p) =>
        assert s[..p + 1] == [s[0]] + s[1..][..p];
        Some(p + 1)
  }

  /** Splits a "table:key" string at its first ':'. Refused when there is no
      ':' or when the first ':' is the last character. */
  function SplitKey(key: string): (r: Option<(string, string)>)
    ensures r.None? <==>
              NameDelimiter !in key ||
              (key[|key| - 1] == NameDelimiter && NameDelimiter !in key[..|key| - 1])
    ensures r.Some? ==>
              r.value.0 + [NameDelimiter] + r.value.1 == key &&
              NameDelimiter !in r.value.0 && r.value.1 != []
  {
    match FindFirst(key, NameDelimiter)
    case None => None
    case Some(pos) =>
      if |key| - 1 == pos then None
      else
        assert key[..pos] + [NameDelimiter] + key[pos + 1..] == key;
        Some((key[..pos], key[pos + 1..]))
  }

  /** Joining a table name without ':' and a non-empty key name, then
      splitting, gives both back. */
  lemma SplitKeyJoin(table: string, keyName: string)
    requires NameDelimiter !in table && keyName != []
    ensures SplitKey(table + [NameDelimiter] + keyName) == Some((table, keyName))
  {
    var key := table + [NameDelimiter] + keyName;
    assert key[..|table|] == table;
    assert key[|table|] == NameDelimiter;
    var pos := FindFirst(key, NameDelimiter);
    assert pos.Some?;
    assert key[..|table|] == table && key[|table| + 1..] == keyName;
  }

  /** The writes one accepted item issues. */
  function ItemWrites(item: KeyOpFieldsValues, table: string, keyName: string): seq<DbWrite> {
    (if item.op == SetCommand then [Set(table, keyName, item.fields)] else []) +
    (if item.op == DelCommand then [Del(table, keyName)] else [])
  }

  /** Whether every key was accepted, and the writes issued. */
  datatype Writing = Writing(ok: bool, writes: seq<DbWrite>)

  /** The items in order, stopping at the first key that does not split. */
  function WriteItems(items: seq<KeyOpFieldsValues>): Writing
  {
    if items == [] then Writing(true, [])
    else match SplitKey(items[0].key)
      case None => Writing(false, [])
      case Some((table, keyName)) =>
        var rest := WriteItems(items[1..]);
        Writing(rest.ok, ItemWrites(items[0], table, keyName) + rest.writes)
  }

  /** One item of `write_db_data`: split its key at the first ':' and issue
      a set for "SET", a del for "DEL" and nothing for any other op. */
  method WriteItem(item: KeyOpFieldsValues) returns (accepted: bool, issued: seq<DbWrite>)
    ensures accepted == SplitKey(item.key).Some?
    ensures !accepted ==> issued == []
    ensures accepted ==> issued == ItemWrites(item, SplitKey(item.key).value.0, SplitKey(item.key).value.1)
  {
    var key := item.key;
    var pos := FindFirst(key, NameDelimiter);
    if pos.None? || |key| - 1 == pos.value {
      return false, [];
    }
    var tableName := key[..pos.value];
    var keyName := key[pos.value + 1..];
    issued := [];
    if item.op == SetCommand {
      issued := issued + [Set(tableName, keyName, item.fields)];
    }
    if item.op == DelCommand {
      issued := issued + [Del(tableName, keyName)];
    }
    return true, issued;
  }

  /** The outcome of the remaining items, after the writes already issued. */
  function ContinueWrites(done: seq<DbWrite>, rest: Writing): Writing {
    Writing(rest.ok, done + rest.writes)
  }

  /** One step of WriteItems. */
  lemma WriteItemsHead(items: seq<KeyOpFieldsValues>)
    requires items != []
    ensures SplitKey(items[0].key).None? ==> WriteItems(items) == Writing(false, [])
    ensures SplitKey(items[0].key).Some? ==>
              var split := SplitKey(items[0].key).value;
              WriteItems(items) == Writing(WriteItems(items[1..]).ok,
                                           ItemWrites(items[0], split.0, split.1) + WriteItems(items[1..]).writes)
  {
  }

  /** `write_db_data`: writes the items in order and returns false at the
      first key that does not split, leaving the later items unwritten. */
  method WriteDbData(dbItems: seq<KeyOpFieldsValues>) returns (ok: bool, log: seq<DbWrite>)
    ensures Writing(ok, log) == WriteItems(dbItems)
  {
    log := [];
    var i := 0;
    while i < |dbItems|
      invariant 0 <= i <= |dbItems|
      invariant WriteItems(dbItems) == ContinueWrites(log, WriteItems(dbItems[i..]))
    {
      assert dbItems[i..][0] == dbItems[i] && dbItems[i..][1..] == dbItems[i + 1..];
      WriteItemsHead(dbItems[i..]);
      var accepted, issued := WriteItem(dbItems[i]);
      if !accepted {
        return false, log;
      }
      AppendAssoc(log, issued, WriteItems(dbItems[i + 1..]).writes);
      log := log + issued;
      i := i + 1;
    }
    return true, log;
  }

  /** Writing succeeds exactly when every key splits. */
  lemma {:induction false} WriteItemsOkIff(items: seq<KeyOpFieldsValues>)
    ensures WriteItems(items).ok <==> forall i :: 0 <= i < |items| ==> SplitKey(items[i].key).Some?
  {
    if items != [] && SplitKey(items[0].key).Some? {
      WriteItemsOkIff(items[1..]);
      assert forall i :: 1 <= i < |items| ==> items[i] == items[1..][i - 1];
    }
  }

  /** A refused key at position `k` leaves exactly the writes of the items
      before it: nothing for it or for any later item. */
  lemma {:induction false} WriteItemsStopsAt(items: seq<KeyOpFieldsValues>, k: nat)
    requires k < |items| && SplitKey(items[k].key).None?
    ensures !WriteItems(items).ok
    ensures WriteItems(items).writes == WriteItems(items[..k]).writes
  {
    if SplitKey(items[0].key).Some? {
      assert k > 0;
      assert items[1..][k - 1] == items[k];
      WriteItemsStopsAt(items[1..], k - 1);
      assert items[..k][1..] == items[1..][..k - 1];
    }
  }

  function CountOp(items: seq<KeyOpFieldsValues>, op: string): nat {
    if items == [] then 0 else (if items[0].op == op then 1 else 0) + CountOp(items[1..], op)
  }

  /** When writing succeeds there is one write per "SET" or "DEL" item, and
      every write names a table without ':' and a non-empty key that rejoin
      to one of the items' keys. */
  lemma {:induction false} WriteItemsShape(items: seq<KeyOpFieldsValues>)
    requires WriteItems(items).ok
    ensures |WriteItems(items).writes| == CountOp(items, SetCommand) + CountOp(items, DelCommand)
    ensures forall w :: w in WriteItems(items).writes ==>
              NameDelimiter !in w.table && w.key != [] &&
              exists i :: 0 <= i < |items| && items[i].key == w.table + [NameDelimiter] + w.key
  {
    if items != [] {
      WriteItemsShape(items[1..]);
      var r := WriteItems(items);
      forall w | w in r.writes
        ensures NameDelimiter !in w.table && w.key != [] &&
                exists i :: 0 <= i < |items| && items[i].key == w.table + [NameDelimiter] + w.key
      {
        var rest := WriteItems(items[1..]).writes;
        if w in rest {
          var i :| 0 <= i < |items[1..]| && items[1..][i].key == w.table + [NameDelimiter] + w.key;
          assert items[i + 1] == items[1..][i];
        } else {
          assert items[0].key == w.table + [NameDelimiter] + w.key;
        }
      }
    }
  }

  // ---------------------------------------------------------------------------
  // The program's control flow
  // ---------------------------------------------------------------------------

  /** `main` once the file is open: load into an empty vector; a refused or
      throwing load fails before any write; otherwise write and report. */
  method ApplyConfig(root: Value) returns (success: bool, log: seq<DbWrite>)
    ensures LoadJson(root).status != Loaded ==> !success && log == []
    ensures LoadJson(root).status == Loaded ==>
              Writing(success, log) == WriteItems(LoadJson(root).items)
  {
    var status, dbItems := LoadJsonDbData(root, []);
    assert dbItems == LoadJson(root).items;
    if status != Loaded {
      return false, [];
    }
    success, log := WriteDbData(dbItems);
  }
}
