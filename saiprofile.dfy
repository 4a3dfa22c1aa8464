/**
 * The profile service the orchestration agent hands to the SAI library: the
 * profile map `gProfileMap` (a `std::map<string, string>`, so iterated in
 * ascending key order), a lookup by name, and an enumeration whose iterator
 * persists from one call to the next.
 */
module SaiProfile {
  import opened Wrappers

  /** `std::string`'s `<`: lexicographic by character code, a proper prefix first. */
  predicate StrLess(a: string, b: string)
    decreases |a|
  {
    |b| > 0 && (|a| == 0 || a[0] < b[0] || (a[0] == b[0] && StrLess(a[1..], b[1..])))
  }

  lemma {:induction false} StrLessIrreflexive(a: string)
    ensures !StrLess(a, a)
    decreases |a|
  {
    if |a| > 0 {
      StrLessIrreflexive(a[1..]);
    }
  }

  /** Keys strictly ascending: the order a `std::map` keeps its entries in. */
  predicate Ascending(entries: seq<(string, string)>) {
    forall i, j :: 0 <= i < j < |entries| ==> StrLess(entries[i].0, entries[j].0)
  }

  /** In an ascending sequence no key occurs twice. */
  lemma AscendingKeysDistinct(entries: seq<(string, string)>)
    requires Ascending(entries)
    ensures forall i, j :: 0 <= i < |entries| && 0 <= j < |entries| && i != j ==>
              entries[i].0 != entries[j].0
  {
    forall i, j | 0 <= i < |entries| && 0 <= j < |entries| && i != j
      ensures entries[i].0 != entries[j].0
    {
      if i < j {
        StrLessIrreflexive(entries[i].0);
      } else {
        StrLessIrreflexive(entries[j].0);
      }
    }
  }

  /** `std::map::find`: the value bound to `variable`, or none. */
  function Find(entries: seq<(string, string)>, variable: string): (r: Option<string>)
    ensures r.None? <==> forall i :: 0 <= i < |entries| ==> entries[i].0 != variable
    ensures r.Some? ==> exists i :: 0 <= i < |entries| && entries[i] == (variable, r.value)
  {
    if entries == [] then None
    else if entries[0].0 == variable then Some(entries[0].1)
    else
      var r := Find(entries[1..], variable);
      assert forall i :: 1 <= i < |entries| ==> entries[i] == entries[1..][i - 1];
      if r.Some? then
        var i :| 0 <= i < |entries[1..]| && entries[1..][i] == (variable, r.value);
        assert entries[i + 1] == (variable, r.value);
        r
      else r
  }

  /** What one call of the enumeration leaves behind: the return code, the
      iterator (an index, `|entries|` standing for `end()`), and the contents
      of the caller's `*variable` and `*value`. */
  datatype Step = Step(rc: int, cursor: nat, variable: string, value: string)

  /** One call of the enumeration. A null `value` pointer restarts it and
      writes nothing; otherwise at the end it returns -1 and changes nothing,
      and before the end it delivers the entry at the iterator and advances.
      The return code is 0 exactly when the iterator is not at the end
      afterwards. */
  function NextValue(entries: seq<(string, string)>, cursor: nat, valueIsNull: bool,
                     variable: string, value: string): Step
    requires cursor <= |entries|
  {
    if valueIsNull then Step(if 0 != |entries| then 0 else -1, 0, variable, value)
    else if cursor == |entries| then Step(-1, cursor, variable, value)
    else
      var next := cursor + 1;
      Step(if next != |entries| then 0 else -1, next, entries[cursor].0, entries[cursor].1)
  }

  /** The results of `n` successive calls with a non-null `value`. */
  function Enumerate(entries: seq<(string, string)>, cursor: nat, n: nat,
                     variable: string, value: string): seq<Step>
    requires cursor <= |entries|
    decreases n
  {
    if n == 0 then []
    else
      var s := NextValue(entries, cursor, false, variable, value);
      [s] + Enumerate(entries, s.cursor, n - 1, s.variable, s.value)
  }

  /** From iterator position `c`, the j-th call delivers entry `c + j` and
      returns 0 unless that was the last entry; once the entries are used up
      every call returns -1 and leaves the outputs as the last delivery left
      them. */
  lemma {:induction false} EnumerateFrom(entries: seq<(string, string)>, c: nat, n: nat,
                                         variable: string, value: string)
    requires c <= |entries|
    ensures var out := Enumerate(entries, c, n, variable, value);
      |out| == n &&
      (forall j :: 0 <= j < n && c + j < |entries| ==>
         out[j] == Step(if c + j + 1 < |entries| then 0 else -1, c + j + 1,
                        entries[c + j].0, entries[c + j].1)) &&
      (forall j :: 0 <= j < n && c + j >= |entries| ==>
         out[j].rc == -1 && out[j].cursor == |entries| &&
         (out[j].variable, out[j].value) ==
           (if c < |entries| then entries[|entries| - 1] else (variable, value)))
    decreases n
  {
    if n > 0 {
      var s := NextValue(entries, c, false, variable, value);
      EnumerateFrom(entries, s.cursor, n - 1, s.variable, s.value);
      var out := Enumerate(entries, c, n, variable, value);
      var tail := Enumerate(entries, s.cursor, n - 1, s.variable, s.value);
      assert out == [s] + tail;
      forall j | 1 <= j < n
        ensures out[j] == tail[j - 1]
      {
      }
    }
  }

  /** After a restart, the calls deliver every entry exactly once, in
      ascending key order, the last of them returning -1, and only -1 after. */
  lemma EnumerateAfterReset(entries: seq<(string, string)>, cursor: nat, n: nat,
                            variable: string, value: string)
    requires Ascending(entries) && cursor <= |entries| && |entries| <= n
    ensures var r := NextValue(entries, cursor, true, variable, value);
      var out := Enumerate(entries, r.cursor, n, r.variable, r.value);
      r.cursor == 0 && (r.rc == 0 <==> |entries| > 0) && |out| == n &&
      (forall j :: 0 <= j < |entries| ==> (out[j].variable, out[j].value) == entries[j]) &&
      (forall j :: 0 <= j < n ==> (out[j].rc == 0 <==> j + 1 < |entries|))
  {
    var r := NextValue(entries, cursor, true, variable, value);
    EnumerateFrom(entries, 0, n, r.variable, r.value);
  }

  /** The profile map and the enumeration's persistent iterator. */
  class ProfileMap {
    /** The entries of `gProfileMap`, in ascending key order. */
    const entries: seq<(string, string)>
    /** The function-local static iterator, as an index into `entries`;
        `|entries|` stands for `end()`. */
    var cursor: nat

    ghost predicate Valid()
      reads this
    {
      Ascending(entries) && cursor <= |entries|
    }

    /** The iterator starts at `begin()`, its value on first use. */
    constructor (entries: seq<(string, string)>)
      requires Ascending(entries)
      ensures Valid() && this.entries == entries && cursor == 0
    {
      this.entries := entries;
      cursor := 0;
    }

    /** `test_profile_get_value`: the value bound to `variable`, or NULL
        when it is absent. It reads the map and changes nothing. */
    function GetValue(variable: string): (r: Option<string>)
      requires Ascending(entries)
      ensures r.None? <==> forall i :: 0 <= i < |entries| ==> entries[i].0 != variable
      ensures forall i :: 0 <= i < |entries| && entries[i].0 == variable ==> r == Some(entries[i].1)
    {
      AscendingKeysDistinct(entries);
      Find(entries, variable)
    }

    /** `test_profile_get_next_value`. `valueIsNull` says the `value`
        pointer is NULL; `variable` and `value` are what the caller's
        `*variable` and `*value` hold before the call, `variable'` and
        `value'` what they hold after it. */
    method GetNextValue(valueIsNull: bool, variable: string, value: string)
      returns (rc: int, variable': string, value': string)
      requires Valid()
      modifies this`cursor
      ensures Valid()
      ensures Step(rc, cursor, variable', value') ==
                NextValue(entries, old(cursor), valueIsNull, variable, value)
      ensures valueIsNull ==> cursor == 0 && variable' == variable && value' == value
      ensures !valueIsNull && old(cursor) == |entries| ==>
                rc == -1 && cursor == old(cursor) && variable' == variable && value' == value
      ensures !valueIsNull && old(cursor) < |entries| ==>
                (variable', value') == entries[old(cursor)] && cursor == old(cursor) + 1
      ensures rc == (if cursor < |entries| then 0 else -1)
    {
      variable', value' := variable, value;
      if valueIsNull {
        // restarts the enumeration
        cursor := 0;
      } else if cursor == |entries| {
        return -1, variable', value';
      } else {
        variable', value' := entries[cursor].0, entries[cursor].1;
        cursor := cursor + 1;
      }
      if cursor != |entries| {
        rc := 0;
      } else {
        rc := -1;
      }
    }
  }
}
