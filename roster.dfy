/**
 * parse_members: find the header line, read the data rows, keep the valid ones and order them
 * by QC number. The CSV reader is a parameter: given the lines from the header on, it yields
 * one map from column name to field text per data row.
 */
module Roster {
  import opened Text

  /** One data row as the CSV reader yields it: column name to field text. */
  type Row = map<string, string>

  /** The CSV reader, applied to the lines from the header line on. */
  type Reader = seq<string> -> seq<Row>

  datatype Member = Member(callsign: string, name: string, joinDate: string, qcNumber: int)

  /** The text that marks the header line. */
  const HeaderMarker: string := "Callsign"

  // ---------------------------------------------------------------------------
  // Reading one row
  // ---------------------------------------------------------------------------

  /** row.get(key, default). */
  function Field(row: Row, key: string, default: string): string
  {
    if key in row then row[key] else default
  }

  /** The QC number of a row: int() of the stripped field, 0 when that fails or the column is missing. */
  function QcNumber(row: Row): int
  {
    match ParseInt(Strip(Field(row, "QC #", "0")))
    case Some(n) => n
    case None => 0
  }

  /** The record the loop body builds from one row (before the validity test). */
  function ToMember(row: Row): Member
  {
    Member(Strip(Field(row, "Callsign", "")), Strip(Field(row, "Name", "")),
           Strip(Field(row, "Join Date", "")), QcNumber(row))
  }

  /** A row is kept when its callsign is non-empty and its QC number is non-zero. */
  predicate IsKept(m: Member)
  {
    m.callsign != [] && m.qcNumber != 0
  }

  /** The record built from each row, in row order. */
  function Records(rows: seq<Row>): (ms: seq<Member>)
    ensures |ms| == |rows|
  {
    seq(|rows|, k requires 0 <= k < |rows| => ToMember(rows[k]))
  }

  /** The valid records, in their order: what the row loop appends. */
  function KeepValid(ms: seq<Member>): seq<Member>
    decreases |ms|
  {
    if ms == [] then []
    else KeepValid(ms[..|ms| - 1]) + (if IsKept(ms[|ms| - 1]) then [ms[|ms| - 1]] else [])
  }

  /** The members the row loop appends, in row order. */
  function KeptMembers(rows: seq<Row>): seq<Member>
  {
    KeepValid(Records(rows))
  }

  /** Filtering runs over the records one after the other: filtering a + b is filtering a, then b. */
  lemma {:induction false} KeepValidAppend(a: seq<Member>, b: seq<Member>)
    ensures KeepValid(a + b) == KeepValid(a) + KeepValid(b)
    decreases |b|
  {
    if b == [] {
      assert a + b == a;
    } else {
      assert (a + b)[..|a + b| - 1] == a + b[..|b| - 1];
      KeepValidAppend(a, b[..|b| - 1]);
    }
  }

  lemma {:induction false} KeepValidIff(ms: seq<Member>, m: Member)
    ensures m in KeepValid(ms) <==> IsKept(m) && m in ms
    decreases |ms|
  {
    if ms != [] {
      KeepValidIff(ms[..|ms| - 1], m);
      assert ms == ms[..|ms| - 1] + [ms[|ms| - 1]];
    }
  }

  /** Reading rows a + b yields the members of a, then those of b: row order is kept. */
  lemma KeptMembersAppend(a: seq<Row>, b: seq<Row>)
    ensures KeptMembers(a + b) == KeptMembers(a) + KeptMembers(b)
  {
    assert Records(a + b) == Records(a) + Records(b);
    KeepValidAppend(Records(a), Records(b));
  }

  /** The kept members are exactly the records of the rows that pass the validity test. */
  lemma KeptMembersIff(rows: seq<Row>, m: Member)
    ensures m in KeptMembers(rows) <==> IsKept(m) && exists k :: 0 <= k < |rows| && ToMember(rows[k]) == m
  {
    KeepValidIff(Records(rows), m);
    if m in Records(rows) {
      var k :| 0 <= k < |rows| && Records(rows)[k] == m;
    }
    if exists k :: 0 <= k < |rows| && ToMember(rows[k]) == m {
      var k :| 0 <= k < |rows| && ToMember(rows[k]) == m;
      assert Records(rows)[k] == m;
    }
  }

  /** A QC number that int() reads as negative still passes. */
  lemma NegativeQcKept(row: Row, n: int)
    requires n < 0 && WithinDigitLimit(n) && "QC #" in row && row["QC #"] == IntToString(n)
    requires Strip(Field(row, "Callsign", "")) != []
    ensures IsKept(ToMember(row)) && ToMember(row).qcNumber == n
  {
    ParseIntOfIntToString(n);
    StripNoSpace(IntToString(n));
  }

  /** A QC number that int() cannot read becomes 0, and the row is dropped. */
  lemma UnreadableQcDropped(row: Row)
    requires ParseInt(Strip(Field(row, "QC #", "0"))).None?
    ensures ToMember(row).qcNumber == 0 && !IsKept(ToMember(row))
  {
  }

  /** A QC number of more digits than int() converts raises ValueError: it becomes 0 and the row is dropped. */
  lemma OverlongQcDropped(row: Row)
    requires "QC #" in row && AllDigits(row["QC #"]) && |row["QC #"]| > MaxStrDigits
    ensures ToMember(row).qcNumber == 0 && !IsKept(ToMember(row))
  {
    var q := row["QC #"];
    assert IsDigit(q[0]) && IsDigit(q[|q| - 1]);
    StripNoSpace(q);
    ParseIntOverlong(q);
  }

  /** Rows that all fail the validity test give no members at all. */
  lemma NoValidRows(rows: seq<Row>)
    requires forall k :: 0 <= k < |rows| ==> !IsKept(ToMember(rows[k]))
    ensures KeptMembers(rows) == []
  {
    if KeptMembers(rows) != [] {
      var m := KeptMembers(rows)[0];
      KeptMembersIff(rows, m);
    }
  }

  // ---------------------------------------------------------------------------
  // members.sort(key=qc_number): a stable sort
  // ---------------------------------------------------------------------------

  predicate SortedByQc(s: seq<Member>)
  {
    forall i, j :: 0 <= i < j < |s| ==> s[i].qcNumber <= s[j].qcNumber
  }

  /** The members with QC number `k`, in their order in `s`. */
  function WithQc(s: seq<Member>, k: int): seq<Member>
    decreases |s|
  {
    if s == [] then []
    else (if s[0].qcNumber == k then [s[0]] else []) + WithQc(s[1..], k)
  }

  /** WithQc keeps exactly the members with QC number `k`. */
  lemma {:induction false} WithQcMembers(s: seq<Member>, k: int, x: Member)
    ensures x in WithQc(s, k) <==> x in s && x.qcNumber == k
    decreases |s|
  {
    if s != [] {
      WithQcMembers(s[1..], k, x);
      assert s == [s[0]] + s[1..];
    }
  }

  /** Inserts `m` before the first member whose QC number is not smaller. */
  function InsertByQc(m: Member, s: seq<Member>): seq<Member>
    decreases |s|
  {
    if s == [] || m.qcNumber <= s[0].qcNumber then [m] + s
    else [s[0]] + InsertByQc(m, s[1..])
  }

  /** Stable sort by QC number (insertion sort, inserting each member before its equals). */
  function SortByQc(s: seq<Member>): seq<Member>
    decreases |s|
  {
    if s == [] then [] else InsertByQc(s[0], SortByQc(s[1..]))
  }

  lemma {:induction false} InsertByQcMultiset(m: Member, s: seq<Member>)
    ensures multiset(InsertByQc(m, s)) == multiset(s) + multiset{m}
    decreases |s|
  {
    if s != [] && m.qcNumber > s[0].qcNumber {
      InsertByQcMultiset(m, s[1..]);
      assert s == [s[0]] + s[1..];
    }
  }

  /** Every member of `s` has a QC number of at least `q`. */
  predicate AllAtLeast(s: seq<Member>, q: int)
  {
    forall i :: 0 <= i < |s| ==> q <= s[i].qcNumber
  }

  lemma SortedCons(m: Member, s: seq<Member>)
    requires SortedByQc(s) && AllAtLeast(s, m.qcNumber)
    ensures SortedByQc([m] + s)
  {
    var r := [m] + s;
    forall i, j | 0 <= i < j < |r| ensures r[i].qcNumber <= r[j].qcNumber {
      assert r[j] == s[j - 1];
      if i > 0 {
        assert r[i] == s[i - 1];
      }
    }
  }

  lemma {:induction false} InsertByQcAtLeast(m: Member, s: seq<Member>, q: int)
    requires AllAtLeast(s, q) && q <= m.qcNumber
    ensures AllAtLeast(InsertByQc(m, s), q)
    decreases |s|
  {
    if s != [] && m.qcNumber > s[0].qcNumber {
      InsertByQcAtLeast(m, s[1..], q);
      var r := [s[0]] + InsertByQc(m, s[1..]);
      assert forall i :: 0 < i < |r| ==> r[i] == InsertByQc(m, s[1..])[i - 1];
    }
  }

  lemma {:induction false} InsertByQcSorted(m: Member, s: seq<Member>)
    requires SortedByQc(s)
    ensures SortedByQc(InsertByQc(m, s))
    decreases |s|
  {
    if s == [] || m.qcNumber <= s[0].qcNumber {
      SortedCons(m, s);
    } else {
      assert SortedByQc(s[1..]) && AllAtLeast(s[1..], s[0].qcNumber);
      InsertByQcSorted(m, s[1..]);
      InsertByQcAtLeast(m, s[1..], s[0].qcNumber);
      SortedCons(s[0], InsertByQc(m, s[1..]));
    }
  }

  lemma {:induction false} InsertByQcWithQc(m: Member, s: seq<Member>, k: int)
    ensures WithQc(InsertByQc(m, s), k) == (if m.qcNumber == k then [m] else []) + WithQc(s, k)
    decreases |s|
  {
    if s == [] || m.qcNumber <= s[0].qcNumber {
      WithQcCons(m, s, k);
    } else {
      var t := InsertByQc(m, s[1..]);
      InsertByQcWithQc(m, s[1..], k);
      WithQcCons(s[0], t, k);
      assert s == [s[0]] + s[1..];
      WithQcCons(s[0], s[1..], k);
      // s[0] comes before m, so at most one of the two is in group k
      if m.qcNumber == k {
        assert s[0].qcNumber != k;
      }
    }
  }

  /** The sorted sequence is ordered by QC number and holds the same members, as often. */
  lemma {:induction false} SortByQcSortedPermutation(s: seq<Member>)
    ensures SortedByQc(SortByQc(s))
    ensures multiset(SortByQc(s)) == multiset(s)
    decreases |s|
  {
    if s != [] {
      SortByQcSortedPermutation(s[1..]);
      InsertByQcSorted(s[0], SortByQc(s[1..]));
      InsertByQcMultiset(s[0], SortByQc(s[1..]));
      assert s == [s[0]] + s[1..];
    }
  }

  /** Stability: members with the same QC number keep their relative order. */
  lemma {:induction false} SortByQcStable(s: seq<Member>, k: int)
    ensures WithQc(SortByQc(s), k) == WithQc(s, k)
    decreases |s|
  {
    if s != [] {
      SortByQcStable(s[1..], k);
      InsertByQcWithQc(s[0], SortByQc(s[1..]), k);
    }
  }

  lemma SortedHead(s: seq<Member>, x: Member)
    requires SortedByQc(s) && x in s
    ensures s[0].qcNumber <= x.qcNumber
  {
    var j :| 0 <= j < |s| && s[j] == x;
  }

  lemma WithQcCons(x: Member, s: seq<Member>, k: int)
    ensures WithQc([x] + s, k) == (if x.qcNumber == k then [x] else []) + WithQc(s, k)
  {
    assert ([x] + s)[1..] == s;
  }

  /** A member's own QC group is not empty, in either of two sequences with the same groups. */
  lemma SameGroupsSameMembers(t: seq<Member>, u: seq<Member>, x: Member)
    requires forall k :: WithQc(t, k) == WithQc(u, k)
    ensures x in t <==> x in u
  {
    WithQcMembers(t, x.qcNumber, x);
    WithQcMembers(u, x.qcNumber, x);
  }

  /** Two non-empty sorted sequences with the same groups start with the same member. */
  lemma SortedSameGroupsHead(t: seq<Member>, u: seq<Member>)
    requires t != [] && u != [] && SortedByQc(t) && SortedByQc(u)
    requires forall k :: WithQc(t, k) == WithQc(u, k)
    ensures t[0] == u[0]
  {
    var a, b := t[0], u[0];
    SameGroupsSameMembers(t, u, a);
    SameGroupsSameMembers(t, u, b);
    SortedHead(u, a);
    SortedHead(t, b);
    var q := a.qcNumber;
    assert b.qcNumber == q;
    assert t == [a] + t[1..];
    WithQcCons(a, t[1..], q);
    assert u == [b] + u[1..];
    WithQcCons(b, u[1..], q);
    var g := WithQc(t, q);
    assert g == WithQc(u, q);
    assert g == [a] + WithQc(t[1..], q) && g == [b] + WithQc(u[1..], q);
    assert g[0] == a && g[0] == b;
  }

  /** Removing the same first member leaves the groups of the rests equal. */
  lemma SameGroupsTail(t: seq<Member>, u: seq<Member>, k: int)
    requires t != [] && u != [] && t[0] == u[0]
    requires WithQc(t, k) == WithQc(u, k)
    ensures WithQc(t[1..], k) == WithQc(u[1..], k)
  {
    var a := t[0];
    assert t == [a] + t[1..] && u == [a] + u[1..];
    WithQcCons(a, t[1..], k);
    WithQcCons(a, u[1..], k);
    var x, y := WithQc(t[1..], k), WithQc(u[1..], k);
    if a.qcNumber == k {
      assert x == ([a] + x)[1..] && y == ([a] + y)[1..];
    } else {
      assert [] + x == x && [] + y == y;
    }
  }

  /**
   * Two sequences sorted by QC number that agree on the order of the members of every QC number
   * are equal.
   */
  lemma {:induction false} SortedSameGroupsEqual(t: seq<Member>, u: seq<Member>)
    requires SortedByQc(t) && SortedByQc(u)
    requires forall k :: WithQc(t, k) == WithQc(u, k)
    ensures t == u
    decreases |t|
  {
    if t == [] || u == [] {
      if t != [] {
        SameGroupsSameMembers(t, u, t[0]);
      }
      if u != [] {
        SameGroupsSameMembers(t, u, u[0]);
      }
    } else {
      SortedSameGroupsHead(t, u);
      forall k ensures WithQc(t[1..], k) == WithQc(u[1..], k) {
        SameGroupsTail(t, u, k);
      }
      assert SortedByQc(t[1..]) && SortedByQc(u[1..]);
      SortedSameGroupsEqual(t[1..], u[1..]);
      assert t == [t[0]] + t[1..] && u == [u[0]] + u[1..];
    }
  }

  /**
   * SortByQc is the stable sort: any sequence that is sorted by QC number and keeps the input
   * order within each QC number (what Python's list.sort guarantees) is SortByQc of the input.
   */
  lemma StableSortUnique(s: seq<Member>, t: seq<Member>)
    requires SortedByQc(t)
    requires forall k :: WithQc(t, k) == WithQc(s, k)
    ensures t == SortByQc(s)
  {
    SortByQcSortedPermutation(s);
    forall k ensures WithQc(t, k) == WithQc(SortByQc(s), k) {
      SortByQcStable(s, k);
    }
    SortedSameGroupsEqual(t, SortByQc(s));
  }

  // ---------------------------------------------------------------------------
  // Finding the header, and the whole of parse_members
  // ---------------------------------------------------------------------------

  /** The index of the first line that contains "Callsign", if any. */
  function HeaderIndex(lines: seq<string>, marker: string): (r: Option<nat>)
    ensures r.Some? ==> r.value < |lines| && Contains(lines[r.value], marker)
    ensures r.Some? ==> forall j :: 0 <= j < r.value ==> !Contains(lines[j], marker)
    ensures r.None? <==> forall j :: 0 <= j < |lines| ==> !Contains(lines[j], marker)
    decreases |lines|
  {
    if lines == [] then None
    else if Contains(lines[0], marker) then Some(0)
    else match HeaderIndex(lines[1..], marker)
      case None => None
      case Some(h) => Some(h + 1)
  }

  /** What parse_members returns. */
  function ParseSpec(lines: seq<string>, reader: Reader): seq<Member>
  {
    match HeaderIndex(lines, HeaderMarker)
    case None => []
    case Some(h) => SortByQc(KeptMembers(reader(lines[h..])))
  }

  /** Putting lines without "Callsign" in front moves the header index by their number. */
  lemma {:induction false} HeaderIndexAfterPreamble(preamble: seq<string>, rest: seq<string>, marker: string)
    requires forall j :: 0 <= j < |preamble| ==> !Contains(preamble[j], marker)
    ensures HeaderIndex(preamble + rest, marker).None? <==> HeaderIndex(rest, marker).None?
    ensures HeaderIndex(rest, marker).Some? ==>
              HeaderIndex(preamble + rest, marker) == Some(|preamble| + HeaderIndex(rest, marker).value)
    decreases |preamble|
  {
    if preamble == [] {
      assert preamble + rest == rest;
    } else {
      var lines := preamble + rest;
      assert lines[0] == preamble[0];
      assert lines[1..] == preamble[1..] + rest;
      HeaderIndexAfterPreamble(preamble[1..], rest, marker);
    }
  }

  /** Lines before the header line play no part: a preamble without "Callsign" changes nothing. */
  lemma ParseSpecIgnoresPreamble(preamble: seq<string>, rest: seq<string>, reader: Reader)
    requires forall j :: 0 <= j < |preamble| ==> !Contains(preamble[j], HeaderMarker)
    ensures ParseSpec(preamble + rest, reader) == ParseSpec(rest, reader)
  {
    HeaderIndexAfterPreamble(preamble, rest, HeaderMarker);
    if HeaderIndex(rest, HeaderMarker).Some? {
      var h := HeaderIndex(rest, HeaderMarker).value;
      assert (preamble + rest)[|preamble| + h..] == rest[h..];
    }
  }

  /** Every member parse_members returns is valid, and the result is sorted by QC number. */
  lemma ParseSpecValidSorted(lines: seq<string>, reader: Reader)
    ensures SortedByQc(ParseSpec(lines, reader))
    ensures forall m :: m in ParseSpec(lines, reader) ==> IsKept(m)
  {
    match HeaderIndex(lines, HeaderMarker)
    case None =>
    case Some(h) =>
      var kept := KeptMembers(reader(lines[h..]));
      SortByQcSortedPermutation(kept);
      forall m | m in ParseSpec(lines, reader) ensures IsKept(m) {
        assert m in multiset(kept);
        KeptMembersIff(reader(lines[h..]), m);
      }
  }

  /**
   * Against the kept rows, in row order: the result holds each of them exactly as often, and
   * members with equal QC numbers appear in row order.
   */
  lemma ParseSpecPermutationStable(lines: seq<string>, reader: Reader, h: nat)
    requires HeaderIndex(lines, HeaderMarker) == Some(h)
    ensures multiset(ParseSpec(lines, reader)) == multiset(KeptMembers(reader(lines[h..])))
    ensures forall k :: WithQc(ParseSpec(lines, reader), k) == WithQc(KeptMembers(reader(lines[h..])), k)
  {
    var kept := KeptMembers(reader(lines[h..]));
    SortByQcSortedPermutation(kept);
    forall k ensures WithQc(SortByQc(kept), k) == WithQc(kept, k) {
      SortByQcStable(kept, k);
    }
  }

  /** The header search of parse_members: the index of the first line containing `marker`, or -1. */
  method FindHeader(lines: seq<string>, marker: string) returns (headerIdx: int)
    ensures headerIdx == -1 <==> HeaderIndex(lines, marker).None?
    ensures headerIdx != -1 ==> HeaderIndex(lines, marker) == Some(headerIdx)
  {
    headerIdx := -1;
    for i := 0 to |lines|
      invariant headerIdx == -1
      invariant forall j :: 0 <= j < i ==> !Contains(lines[j], marker)
    {
      if Contains(lines[i], marker) {
        headerIdx := i;
        break;
      }
    }
  }

  /** One more row read: its record is appended to the kept members exactly when it passes the test. */
  lemma KeptMembersStep(rows: seq<Row>, k: nat)
    requires k < |rows|
    ensures KeptMembers(rows[..k + 1]) ==
            KeptMembers(rows[..k]) + (if IsKept(ToMember(rows[k])) then [ToMember(rows[k])] else [])
  {
    assert rows[..k + 1] == rows[..k] + [rows[k]];
    KeptMembersAppend(rows[..k], [rows[k]]);
    assert Records([rows[k]]) == [ToMember(rows[k])];
    assert KeepValid([ToMember(rows[k])]) == [] + (if IsKept(ToMember(rows[k])) then [ToMember(rows[k])] else []);
  }

  /** The row loop of parse_members: keep the records with a callsign and a non-zero QC number, in order. */
  method KeepRows(rows: seq<Row>) returns (members: seq<Member>)
    ensures members == KeptMembers(rows)
  {
    members := [];
    for k := 0 to |rows|
      invariant members == KeptMembers(rows[..k])
    {
      var member := ToMember(rows[k]);
      KeptMembersStep(rows, k);
      if IsKept(member) {
        members := members + [member];
      }
    }
    assert rows[..|rows|] == rows;
  }

  /**
   * parse_members: a loop that stops at the first line containing "Callsign", then a loop over
   * the rows the CSV reader yields from that line on, then a stable sort by QC number.
   */
  method ParseMembers(lines: seq<string>, reader: Reader) returns (members: seq<Member>)
    ensures members == ParseSpec(lines, reader)
    ensures SortedByQc(members)
    ensures forall m :: m in members ==> IsKept(m)
    ensures (forall j :: 0 <= j < |lines| ==> !Contains(lines[j], HeaderMarker)) ==> members == []
  {
    ParseSpecValidSorted(lines, reader);
    var headerIdx := FindHeader(lines, HeaderMarker);
    if headerIdx == -1 {
      return [];
    }
    var rows := reader(lines[headerIdx..]);
    members := KeepRows(rows);
    members := SortByQc(members);
  }
}
