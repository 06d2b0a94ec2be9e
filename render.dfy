/**
 * The decisions inside render_member_row and generate_html (row classification, escaping of the
 * dynamic text, the member-count wording, one rendered row per member) and the exit code of main.
 * The HTML and CSS text around them is not modelled: a rendered row is the record of the values
 * the template receives.
 */
module Render {
  import opened Text
  import opened Escape
  import opened Dates
  import opened Roster

  // ---------------------------------------------------------------------------
  // Classification: first match wins
  // ---------------------------------------------------------------------------

  datatype RowClass = Founder | TechGuy | Ordinary

  /** The callsign that earns the "Resident Computer Guy" badge. */
  const TechCallsign: string := "W6JSV"

  /** QC numbers up to 3 are founders; otherwise the one distinguished callsign; otherwise nothing. */
  function Classify(m: Member): RowClass
  {
    if m.qcNumber <= 3 then Founder
    else if Upper(m.callsign) == TechCallsign then TechGuy
    else Ordinary
  }

  /** The CSS class added to the row. */
  function ClassName(c: RowClass): string
  {
    match c
    case Founder => "founder"
    case TechGuy => "tech-guy"
    case Ordinary => ""
  }

  /** The badge markup appended to the name. */
  function Badge(c: RowClass): string
  {
    match c
    case Founder => "<span class=\"founder-badge\">Founder</span>"
    case TechGuy => "<span class=\"tech-badge\">Resident Computer Guy</span>"
    case Ordinary => ""
  }

  /**
   * Reference description of the callsigns whose upper case is "W6JSV", letter by letter
   * (U+017F, the long s, upper-cases to S).
   */
  predicate IsTechCallsign(c: string)
  {
    |c| == 5 && (c[0] == 'w' || c[0] == 'W') && c[1] == '6' && (c[2] == 'j' || c[2] == 'J')
    && (c[3] == 's' || c[3] == 'S' || c[3] == '\U{17F}') && (c[4] == 'v' || c[4] == 'V')
  }

  lemma UpperIsTechCallsign(c: string)
    ensures Upper(c) == TechCallsign <==> IsTechCallsign(c)
  {
    var u := Upper(c);
    if IsTechCallsign(c) {
      assert u[0] == 'W' && u[1] == '6' && u[2] == 'J' && u[3] == 'S' && u[4] == 'V';
      assert u == TechCallsign;
    }
    if u == TechCallsign {
      assert |c| == |u| == 5;
      assert u[0] == 'W' && u[1] == '6' && u[2] == 'J' && u[3] == 'S' && u[4] == 'V';
      assert UpperChar(c[0]) == 'W' && UpperChar(c[1]) == '6' && UpperChar(c[2]) == 'J';
      assert UpperChar(c[3]) == 'S' && UpperChar(c[4]) == 'V';
    }
  }

  /**
   * First match wins: a QC number up to 3 gives the founder class whatever the callsign; above 3,
   * a callsign that upper-cases to "W6JSV" gives the tech-guy class; every other member gets
   * no class and no badge.
   */
  lemma ClassifyRules(m: Member)
    ensures Classify(m) == Founder <==> m.qcNumber <= 3
    ensures Classify(m) == TechGuy <==> m.qcNumber > 3 && IsTechCallsign(m.callsign)
    ensures Classify(m) == Ordinary <==> m.qcNumber > 3 && !IsTechCallsign(m.callsign)
    ensures Classify(m) == Ordinary <==> ClassName(Classify(m)) == "" && Badge(Classify(m)) == ""
  {
    UpperIsTechCallsign(m.callsign);
  }

  // ---------------------------------------------------------------------------
  // One rendered row per member
  // ---------------------------------------------------------------------------

  /** The values render_member_row puts into its template. */
  datatype RenderedRow = RenderedRow(qc: int, callsign: string, name: string, rowClass: string,
                                     badge: string, date: string)

  /** render_member_row: callsign, name and reformatted join date are escaped; the class uses the raw callsign. */
  function RenderRow(m: Member): RenderedRow
  {
    var c := Classify(m);
    RenderedRow(m.qcNumber, HtmlEscape(m.callsign), HtmlEscape(m.name), ClassName(c), Badge(c),
                HtmlEscape(FormatDate(m.joinDate)))
  }

  /** The text of a rendered row carries no live markup, and each field reads back as the member's. */
  lemma RenderRowSafe(m: Member)
    ensures var r := RenderRow(m);
      NoMarkup(r.callsign) && NoMarkup(r.name) && NoMarkup(r.date)
      && AmpersandsAreEntities(r.callsign) && AmpersandsAreEntities(r.name) && AmpersandsAreEntities(r.date)
      && Unescape(r.callsign) == m.callsign && Unescape(r.name) == m.name
      && Unescape(r.date) == FormatDate(m.joinDate) && r.qc == m.qcNumber
  {
    HtmlEscapeSafe(m.callsign);
    HtmlEscapeSafe(m.name);
    HtmlEscapeSafe(FormatDate(m.joinDate));
    UnescapeHtmlEscape(m.callsign);
    UnescapeHtmlEscape(m.name);
    UnescapeHtmlEscape(FormatDate(m.joinDate));
  }

  /** Applies `f` to each element in turn, as a generator expression does. */
  function MapSeq<A, B>(f: A -> B, s: seq<A>): seq<B>
    decreases |s|
  {
    if s == [] then [] else [f(s[0])] + MapSeq(f, s[1..])
  }

  lemma {:induction false} MapSeqAt<A, B>(f: A -> B, s: seq<A>)
    ensures |MapSeq(f, s)| == |s|
    ensures forall i :: 0 <= i < |s| ==> MapSeq(f, s)[i] == f(s[i])
    decreases |s|
  {
    if s != [] {
      MapSeqAt(f, s[1..]);
      var tail := MapSeq(f, s[1..]);
      forall i | 0 < i < |s|
        ensures MapSeq(f, s)[i] == f(s[i])
      {
        assert ([f(s[0])] + tail)[i] == tail[i - 1];
        assert s[1..][i - 1] == s[i];
      }
    }
  }

  /** The generator in generate_html: render_member_row applied to each member in turn. */
  function RenderRows(members: seq<Member>): seq<RenderedRow>
  {
    MapSeq(RenderRow, members)
  }

  /** One rendered row per member, in the members' order. */
  lemma RenderRowsInOrder(members: seq<Member>)
    ensures |RenderRows(members)| == |members|
    ensures forall i :: 0 <= i < |members| ==> RenderRows(members)[i] == RenderRow(members[i])
  {
    MapSeqAt(RenderRow, members);
  }

  /** Members sorted by QC number give rows whose QC numbers never decrease. */
  lemma RenderRowsSorted(members: seq<Member>)
    requires SortedByQc(members)
    ensures forall i, j :: 0 <= i < j < |RenderRows(members)| ==> RenderRows(members)[i].qc <= RenderRows(members)[j].qc
  {
    RenderRowsInOrder(members);
  }

  // ---------------------------------------------------------------------------
  // The member count
  // ---------------------------------------------------------------------------

  /** The count text: the number, then "Member", with an "s" unless the number is 1. */
  function CountText(count: nat): string
  {
    NatToString(count) + " Member" + (if count != 1 then "s" else "")
  }

  /** "1 Member" exactly for one member; "N Members" for every other N, zero included. */
  lemma CountTextWording(count: nat)
    ensures CountText(count) == "1 Member" <==> count == 1
    ensures count != 1 ==> CountText(count) == NatToString(count) + " Members"
  {
    if count == 1 {
      assert NatToString(1) == "1";
    } else {
      var t := CountText(count);
      assert t[|t| - 1] == 's';
      assert t == NatToString(count) + " Members";
    }
  }

  /** The number before the first blank of the count text reads back as the count. */
  lemma CountTextNumber(count: nat)
    requires WithinDigitLimit(count)
    ensures ParseInt(Split(CountText(count), ' ')[0]) == Some(count)
  {
    var digits := NatToString(count);
    var tail := "Member" + (if count != 1 then "s" else "");
    assert CountText(count) == digits + ([' '] + tail);
    assert ' ' !in digits;
    SplitPrefix(digits, [' '] + tail, ' ');
    assert ([' '] + tail)[1..] == tail;
    assert Split([' '] + tail, ' ')[0] == [];
    assert digits + [] == digits;
    ParseIntOfIntToString(count);
  }

  // ---------------------------------------------------------------------------
  // generate_html and main
  // ---------------------------------------------------------------------------

  /** The parts of the page that depend on the roster. */
  datatype Page = Page(countText: string, rows: seq<RenderedRow>)

  function GeneratePage(members: seq<Member>): Page
  {
    Page(CountText(|members|), RenderRows(members))
  }

  /**
   * main: exit code 1 when the fetch failed (`fetched` is None) or no member was parsed, and then
   * nothing is written; otherwise exit code 0 and the page is written.
   */
  method Run(fetched: Option<seq<string>>, reader: Reader) returns (exitCode: int, written: Option<Page>)
    ensures exitCode == 0 || exitCode == 1
    ensures exitCode == 0 <==> fetched.Some? && ParseSpec(fetched.value, reader) != []
    ensures written.Some? <==> exitCode == 0
    ensures exitCode == 0 ==> written == Some(GeneratePage(ParseSpec(fetched.value, reader)))
  {
    if fetched.None? {
      return 1, None;
    }
    var members := ParseMembers(fetched.value, reader);
    if |members| == 0 {
      return 1, None;
    }
    return 0, Some(GeneratePage(members));
  }
}
