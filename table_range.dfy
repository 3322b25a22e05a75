/**
 * `TableRange`: which database table holds a document, given for every
 * table the first and last doc_id it stores. Doc ids such as "12/345" are
 * compared as tuples of integers, one per "/"-separated part. The tables
 * are kept in a dict, whose iteration order is insertion order; it is
 * modelled as the list of names in that order plus the map from name to
 * range.
 */
module TableRanges {
  import opened Common
  import opened Strings

  /** One `(table_name, start_doc_id, end_doc_id)` triple. */
  datatype Entry = Entry(name: string, start: string, end: string)

  /** `tuple(map(int, s.split('/')))`, with the ValueError of the first part that is not an integer. */
  function ParseDocId(s: string): (r: Result<seq<int>>)
    ensures r.Ok? ==> |r.value| == |Split(s, '/')|
  {
    ParseParts(Split(s, '/'))
  }

  function ParseParts(parts: seq<string>): (r: Result<seq<int>>)
    ensures r.Err? ==> r.error == ValueError
    ensures r.Ok? ==> |r.value| == |parts|
  {
    if parts == [] then Ok([])
    else
      match ParseInt(parts[0])
      case Err(e) => Err(e)
      case Ok(x) =>
        match ParseParts(parts[1..])
        case Err(e) => Err(e)
        case Ok(xs) => Ok([x] + xs)
  }

  /** The parts parse exactly when each one does, and then to the values of the parts in order. */
  lemma {:induction false} ParsePartsValues(parts: seq<string>)
    ensures ParseParts(parts).Ok? <==> forall i :: 0 <= i < |parts| ==> ParseInt(parts[i]).Ok?
    ensures ParseParts(parts).Ok? ==> forall i :: 0 <= i < |parts| ==> ParseParts(parts).value[i] == ParseInt(parts[i]).value
  {
    if parts != [] {
      var rest := parts[1..];
      ParsePartsValues(rest);
      assert forall i :: 0 < i < |parts| ==> rest[i - 1] == parts[i];
      if ParseInt(parts[0]).Ok? && ParseParts(rest).Ok? {
        var r := [ParseInt(parts[0]).value] + ParseParts(rest).value;
        assert ParseParts(parts) == Ok(r);
        assert forall i :: 0 < i < |parts| ==> r[i] == ParseParts(rest).value[i - 1];
      } else if ParseInt(parts[0]).Ok? {
        var j :| 0 <= j < |rest| && ParseInt(rest[j]).Err?;
        assert ParseInt(parts[j + 1]).Err?;
      }
    }
  }

  /** Python's `a <= b` on tuples of integers: lexicographic, a proper prefix coming first. */
  predicate TupleLe(a: seq<int>, b: seq<int>)
  {
    if a == [] then true
    else if b == [] then false
    else if a[0] != b[0] then a[0] < b[0]
    else TupleLe(a[1..], b[1..])
  }

  /**
   * The table the lookup loop returns for a parsed doc_id: the first name,
   * in insertion order, whose range contains it; "" when none does. A
   * range that does not parse raises, but only once the loop reaches it.
   */
  function TableFor(names: seq<string>, ranges: map<string, (string, string)>, key: seq<int>): Result<string>
    requires forall n :: n in names ==> n in ranges
  {
    if names == [] then Ok("")
    else
      var (start, end) := ranges[names[0]];
      match (ParseDocId(start), ParseDocId(end))
      case (Ok(lo), Ok(hi)) =>
        if TupleLe(lo, key) && TupleLe(key, hi) then Ok(names[0]) else TableFor(names[1..], ranges, key)
      case _ => Err(ValueError)
  }

  /** A range contains a key when both bounds parse and the key lies between them. */
  predicate Contains(range: (string, string), key: seq<int>)
  {
    ParseDocId(range.0).Ok? && ParseDocId(range.1).Ok?
    && TupleLe(ParseDocId(range.0).value, key) && TupleLe(key, ParseDocId(range.1).value)
  }

  /** A range that does not contain the key, when the lookup gets past it, passes on to the next table. */
  lemma TableForSkip(names: seq<string>, ranges: map<string, (string, string)>, key: seq<int>)
    requires forall n :: n in names ==> n in ranges
    requires names != [] && !Contains(ranges[names[0]], key)
    requires TableFor(names, ranges, key).Ok?
    ensures TableFor(names, ranges, key) == TableFor(names[1..], ranges, key)
  {
  }

  /** When no table's range contains the key, the lookup yields "". */
  lemma {:induction false} TableForNone(names: seq<string>, ranges: map<string, (string, string)>, key: seq<int>)
    requires forall n :: n in names ==> n in ranges
    requires TableFor(names, ranges, key).Ok?
    requires forall i :: 0 <= i < |names| ==> !Contains(ranges[names[i]], key)
    ensures TableFor(names, ranges, key) == Ok("")
    decreases |names|
  {
    if names != [] {
      TableForSkip(names, ranges, key);
      assert forall i :: 0 <= i < |names[1..]| ==> names[1..][i] == names[i + 1];
      TableForNone(names[1..], ranges, key);
    }
  }

  /** Otherwise it yields the first table, in insertion order, whose range contains the key. */
  lemma TableForFirst(names: seq<string>, ranges: map<string, (string, string)>, key: seq<int>, i: nat)
    requires forall n :: n in names ==> n in ranges
    requires TableFor(names, ranges, key).Ok?
    requires i < |names| && Contains(ranges[names[i]], key)
    requires forall j :: 0 <= j < i ==> !Contains(ranges[names[j]], key)
    ensures TableFor(names, ranges, key) == Ok(names[i])
  {
    assert names[0..] == names;
    TableForFrom(names, ranges, key, 0, i);
  }

  /** `TableForFirst` for the tables from the `k`-th on. */
  lemma {:induction false} TableForFrom(names: seq<string>, ranges: map<string, (string, string)>, key: seq<int>, k: nat, i: nat)
    requires forall n :: n in names ==> n in ranges
    requires k <= i < |names| && Contains(ranges[names[i]], key)
    requires forall j :: k <= j < i ==> !Contains(ranges[names[j]], key)
    requires TableFor(names[k..], ranges, key).Ok?
    ensures TableFor(names[k..], ranges, key) == Ok(names[i])
    decreases i - k
  {
    var rest := names[k..];
    assert rest[0] == names[k];
    if k < i {
      assert rest[1..] == names[k + 1..];
      TableForSkip(rest, ranges, key);
      TableForFrom(names, ranges, key, k + 1, i);
    }
  }

  /** Parts parse one at a time: a first part that parses is put before the values of the rest. */
  lemma ParsePartsCons(p: string, rest: seq<string>, x: int, xs: seq<int>)
    requires ParseInt(p) == Ok(x) && ParseParts(rest) == Ok(xs)
    ensures ParseParts([p] + rest) == Ok([x] + xs)
  {
    assert ([p] + rest)[0] == p && ([p] + rest)[1..] == rest;
  }

  /** Two parts that parse give the pair of their values. */
  lemma ParsePartsPair(a: string, b: string, x: int, y: int)
    requires ParseInt(a) == Ok(x) && ParseInt(b) == Ok(y)
    ensures ParseParts([a, b]) == Ok([x, y])
  {
    assert ParseParts([b]) == Ok([y]) by {
      ParsePartsCons(b, [], y, []);
      assert [b] + [] == [b] && [y] + [] == [y];
    }
    ParsePartsCons(a, [b], x, [y]);
    assert [a] + [b] == [a, b] && [x] + [y] == [x, y];
  }

  /** A two-part doc_id parses to the pair of its parts' values. */
  lemma ParseTwoParts(a: string, b: string, x: int, y: int)
    requires '/' !in a && '/' !in b
    requires ParseInt(a) == Ok(x) && ParseInt(b) == Ok(y)
    ensures ParseDocId(a + "/" + b) == Ok([x, y])
  {
    SplitTwo(a, b, '/');
    assert a + "/" + b == a + ['/'] + b;
    ParsePartsPair(a, b, x, y);
  }

  /** `s` is one or two ASCII digits whose value is `v`. */
  predicate SmallDigits(s: string, v: nat)
  {
    || (|s| == 1 && IsDigit(s[0]) && v == s[0] as int - '0' as int)
    || (|s| == 2 && IsDigit(s[0]) && IsDigit(s[1]) && v == 10 * (s[0] as int - '0' as int) + (s[1] as int - '0' as int))
  }

  /** The value of one or two ASCII digits. */
  lemma DigitsValueSmall(s: string, v: nat)
    requires SmallDigits(s, v)
    ensures AllDigits(s) && DigitsValue(s) == v
  {
    assert DecimalValue(s[0]) == Some(s[0] as int - '0' as int);
    if |s| == 1 {
      assert s[..0] == [];
    } else {
      var head := s[..1];
      assert head == [s[0]] && head[..0] == [];
      assert DigitsValue(head) == s[0] as int - '0' as int;
      assert DecimalValue(s[1]) == Some(s[1] as int - '0' as int);
      assert DigitsValue(s) == DigitsValue(head) * 10 + (s[1] as int - '0' as int);
    }
  }

  /** A one- or two-digit part parses to its value. */
  lemma ParseSmall(s: string, v: nat)
    requires SmallDigits(s, v)
    ensures ParseInt(s) == Ok(v) && '/' !in s
  {
    DigitsValueSmall(s, v);
    ParseDigits(s);
  }

  /** A doc_id of two small numbers parses to their pair. */
  lemma ParseSmallDocId(a: string, b: string, x: nat, y: nat)
    requires SmallDigits(a, x) && SmallDigits(b, y)
    ensures ParseDocId(a + "/" + b) == Ok([x, y])
  {
    ParseSmall(a, x);
    ParseSmall(b, y);
    ParseTwoParts(a, b, x, y);
  }

  /** "10/1" lies after "9/5": the comparison is on integers, where text order would say the opposite. */
  lemma NumericNotTextual(nine: string, five: string, ten: string, one: string)
    requires nine == "9" && five == "5" && ten == "10" && one == "1"
    ensures ParseDocId(nine + "/" + five) == Ok([9, 5]) && ParseDocId(ten + "/" + one) == Ok([10, 1])
    ensures TupleLe([9, 5], [10, 1]) && !TupleLe([10, 1], [9, 5])
    ensures Less(ten + "/" + one, nine + "/" + five)
  {
    ParseSmallDocId(nine, five, 9, 5);
    ParseSmallDocId(ten, one, 10, 1);
  }

  /** The dict after assigning the triples in order. */
  function Assigned(ranges: map<string, (string, string)>, entries: seq<Entry>): map<string, (string, string)>
  {
    if entries == [] then ranges
    else
      var e := entries[|entries| - 1];
      Assigned(ranges, entries[..|entries| - 1])[e.name := (e.start, e.end)]
  }

  /** A name the input does not mention keeps its range, or stays absent. */
  lemma {:induction false} AssignedKeeps(ranges: map<string, (string, string)>, entries: seq<Entry>, name: string)
    requires forall i :: 0 <= i < |entries| ==> entries[i].name != name
    ensures name in Assigned(ranges, entries) <==> name in ranges
    ensures name in ranges ==> Assigned(ranges, entries)[name] == ranges[name]
    decreases |entries|
  {
    if entries != [] {
      var n := |entries| - 1;
      assert entries[n].name != name;
      AssignedKeeps(ranges, entries[..n], name);
    }
  }

  /** A name the input mentions gets the range of its last occurrence. */
  lemma {:induction false} AssignedLastWins(ranges: map<string, (string, string)>, entries: seq<Entry>, i: nat)
    requires i < |entries|
    requires forall j :: i < j < |entries| ==> entries[j].name != entries[i].name
    ensures entries[i].name in Assigned(ranges, entries)
    ensures Assigned(ranges, entries)[entries[i].name] == (entries[i].start, entries[i].end)
    decreases |entries|
  {
    var n := |entries| - 1;
    if i < n {
      AssignedLastWins(ranges, entries[..n], i);
    }
  }

  /** The names of `entries` not yet in `names`, in first-appearance order: the keys a dict appends. */
  function NewNames(names: seq<string>, entries: seq<Entry>): seq<string>
  {
    if entries == [] then []
    else
      var prior := NewNames(names, entries[..|entries| - 1]);
      var e := entries[|entries| - 1];
      prior + (if e.name in names || e.name in prior then [] else [e.name])
  }

  /** Every name of the input ends up listed. */
  lemma {:induction false} NewNamesCover(names: seq<string>, entries: seq<Entry>, i: nat)
    requires i < |entries|
    ensures entries[i].name in names || entries[i].name in NewNames(names, entries)
    decreases |entries|
  {
    var n := |entries| - 1;
    if i < n {
      NewNamesCover(names, entries[..n], i);
    }
  }

  /**
   * `update_table_ranges` followed by `get_table_ranges` round-trips: every
   * triple not overridden later in the input is listed as given.
   */
  lemma UpdateThenGet(names: seq<string>, ranges: map<string, (string, string)>, entries: seq<Entry>, i: nat)
    requires forall n :: n in names <==> n in ranges
    requires i < |entries|
    requires forall j :: i < j < |entries| ==> entries[j].name != entries[i].name
    ensures var names', ranges' := names + NewNames(names, entries), Assigned(ranges, entries);
      exists k :: 0 <= k < |names'| && names'[k] == entries[i].name && names'[k] in ranges'
        && Entry(names'[k], ranges'[names'[k]].0, ranges'[names'[k]].1) == entries[i]
  {
    var names' := names + NewNames(names, entries);
    NewNamesCover(names, entries, i);
    AssignedLastWins(ranges, entries, i);
    assert entries[i].name in names';
    var k :| 0 <= k < |names'| && names'[k] == entries[i].name;
  }

  /**
   * The state after assigning the triples `done` to the dict `(names0, ranges0)`:
   * distinct names that are exactly the keys, the assigned ranges, and the new
   * names appended in first-appearance order.
   */
  ghost predicate Tracks(names: seq<string>, ranges: map<string, (string, string)>,
                         names0: seq<string>, ranges0: map<string, (string, string)>, done: seq<Entry>)
  {
    (forall i, j :: 0 <= i < j < |names| ==> names[i] != names[j])
    && (forall n :: n in names <==> n in ranges)
    && ranges == Assigned(ranges0, done)
    && names == names0 + NewNames(names0, done)
  }

  /** One more assignment keeps `Tracks`. */
  lemma AssignNext(names: seq<string>, ranges: map<string, (string, string)>,
                   names0: seq<string>, ranges0: map<string, (string, string)>, done: seq<Entry>, e: Entry)
    requires Tracks(names, ranges, names0, ranges0, done)
    ensures Tracks(if e.name in ranges then names else names + [e.name], ranges[e.name := (e.start, e.end)],
                   names0, ranges0, done + [e])
  {
    var d := done + [e];
    assert d[..|d| - 1] == done && d[|d| - 1] == e;
    assert e.name in names <==> e.name in names0 || e.name in NewNames(names0, done);
  }

  class TableRange {
    /** The table names in insertion order. */
    var names: seq<string>
    /** `table_ranges`: name to (start_doc_id, end_doc_id). */
    var ranges: map<string, (string, string)>

    /** The names are distinct and are exactly the keys of the map. */
    ghost predicate Valid()
      reads this
    {
      (forall i, j :: 0 <= i < j < |names| ==> names[i] != names[j])
      && (forall n :: n in names <==> n in ranges)
    }

    /** A `TableRange` whose file held no ranges. */
    constructor ()
      ensures Valid() && names == [] && ranges == map[]
    {
      names := [];
      ranges := map[];
    }

    /**
     * `update_table_ranges`: assigns every triple in order. A known name keeps
     * its place; a new name goes last.
     */
    method UpdateTableRanges(entries: seq<Entry>)
      requires Valid()
      modifies this
      ensures Valid()
      ensures ranges == Assigned(old(ranges), entries)
      ensures names == old(names) + NewNames(old(names), entries)
    {
      var ns, rs := names, ranges;
      for i := 0 to |entries|
        invariant Tracks(ns, rs, old(names), old(ranges), entries[..i])
      {
        var e := entries[i];
        assert entries[..i + 1] == entries[..i] + [e];
        AssignNext(ns, rs, old(names), old(ranges), entries[..i], e);
        if e.name !in rs {
          ns := ns + [e.name];
        }
        rs := rs[e.name := (e.start, e.end)];
      }
      assert entries[..|entries|] == entries;
      names, ranges := ns, rs;
    }

    /** `get_table_ranges`: one triple per table, in insertion order. */
    function GetTableRanges(): (r: seq<Entry>)
      reads this
      requires Valid()
      ensures |r| == |names|
      ensures forall i :: 0 <= i < |r| ==> r[i] == Entry(names[i], ranges[names[i]].0, ranges[names[i]].1)
    {
      seq(|names|, i requires 0 <= i < |names| && Valid() reads this => Entry(names[i], ranges[names[i]].0, ranges[names[i]].1))
    }

    /**
     * `get_table_name_for_doc_id`: the doc_id must parse; then the tables are
     * tried in insertion order and the first whose range contains it is
     * returned, or "" when none does.
     */
    method GetTableNameForDocId(docId: string) returns (r: Result<string>)
      requires Valid()
      ensures ParseDocId(docId).Err? ==> r == Err(ValueError)
      ensures ParseDocId(docId).Ok? ==> r == TableFor(names, ranges, ParseDocId(docId).value)
    {
      var parsed := ParseDocId(docId);
      if parsed.Err? {
        return Err(ValueError);
      }
      var key := parsed.value;
      for i := 0 to |names|
        invariant TableFor(names, ranges, key) == TableFor(names[i..], ranges, key)
      {
        assert names[i..][1..] == names[i + 1..];
        var (start, end) := ranges[names[i]];
        var lo := ParseDocId(start);
        var hi := ParseDocId(end);
        if lo.Err? || hi.Err? {
          return Err(ValueError);
        }
        if TupleLe(lo.value, key) && TupleLe(key, hi.value) {
          return Ok(names[i]);
        }
      }
      r := Ok("");
    }
  }
}
