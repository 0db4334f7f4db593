/**
  Building the catalog of eligible matricules from the spreadsheet
  (`load_matricules`). Each data row is either skipped, accepted with its
  normalised matricule, or rejected with a reason; the catalog is the set of
  accepted matricules together with one `"<matricule>: <reason>"` entry per
  rejected row.
 */
module Matricules {
  import opened Strings

  /** A spreadsheet cell as the workbook reader delivers it. */
  datatype Cell = Text(text: string) | Num(value: int) | Absent

  type Row = seq<Cell>

  /** Fixed column offsets: G holds the matricule, I the programme, J the web-programming section. */
  const MatriculeCol: nat := 6
  const ProgramCol: nat := 8
  const SectionCol: nat := 9

  /** Phrases the lower-cased programme must contain, and the section a row must have. */
  const WebPhrase: string := "programmation web"
  const AiPhrase: string := "introduction \U{E0} l'ia"
  const RequiredSection: string := "B"

  /** Python truthiness of a cell value: `None`, `""` and `0` are false. */
  predicate Truthy(c: Cell) {
    match c
    case Text(s) => s != []
    case Num(n) => n != 0
    case Absent => false
  }

  /** `str(value)` of a present cell; an absent cell reads as empty. */
  function CellString(c: Cell): string {
    match c
    case Text(s) => s
    case Num(n) => IntToString(n)
    case Absent => ""
  }

  /**
    The matricule of a cell: a number becomes the decimal string of its
    value in canonical form (no leading zero, so a zero-padded spelling of
    the same number is a different id), text keeps only its digits. An absent cell gives the empty string,
    which the row extractor treats as "skip" either way.
   */
  function NormalizeMatricule(c: Cell): (id: string)
    ensures c.Text? ==> AllDigits(id)
    ensures c.Num? ==> IsDecimal(id) && ParseInt(id) == c.value
    ensures c.Num? ==> id != [] && (id[0] == '0' ==> id == "0") && (id[0] == '-' ==> |id| >= 2 && id[1] != '0')
  {
    match c
    case Num(n) => IntToStringRoundTrip(n); IntToString(n)
    case Text(s) => DigitsOf(Strip(s))
    case Absent => ""
  }

  /** `str(raw or "").strip().lower() if raw else ""` on the programme cell. */
  function ProgramText(c: Cell): string {
    if Truthy(c) then Lower(Strip(CellString(c))) else ""
  }

  /** `str(raw or "").strip().upper() if raw else ""` on the section cell. */
  function SectionText(c: Cell): string {
    if Truthy(c) then Upper(Strip(CellString(c))) else ""
  }

  /** Why a row was rejected. */
  datatype Reason = EmptyProgram | WrongProgram(program: string) | WrongSection(section: string)
  {
    /** The reason as the source words it. */
    function Text(): string {
      match this
      case EmptyProgram => "Programme vide"
      case WrongProgram(p) => "Programme incorrect: " + Take(p, 50) + "..."
      case WrongSection(s) => "Section incorrecte: '" + s + "' (attendu 'B')"
    }
  }

  datatype Verdict = Skipped | Accepted(id: string) | Rejected(id: string, reason: Reason)

  /** One data row through `load_matricules`' loop body. */
  function Extract(row: Row): (v: Verdict)
    ensures !v.Skipped? ==> |row| > SectionCol && v.id != [] && v.id == NormalizeMatricule(row[MatriculeCol])
  {
    // Reading a column past the end of the row raises, and the row is skipped.
    if |row| <= MatriculeCol then Skipped
    else if row[MatriculeCol].Absent? then Skipped
    else
      var id := NormalizeMatricule(row[MatriculeCol]);
      if id == [] then Skipped
      else if |row| <= ProgramCol || |row| <= SectionCol then Skipped
      else
        var program := ProgramText(row[ProgramCol]);
        var section := SectionText(row[SectionCol]);
        // The section check runs last, so its reason replaces a programme reason.
        if section != RequiredSection then Rejected(id, WrongSection(section))
        else if program == [] then Rejected(id, EmptyProgram)
        else if !(Contains(program, WebPhrase) && Contains(program, AiPhrase)) then Rejected(id, WrongProgram(program))
        else Accepted(id)
  }

  /** The programme test, stated on the cell's text without the truthiness shortcut. */
  predicate ProgramOk(c: Cell) {
    var p := Lower(Strip(CellString(c)));
    Contains(p, WebPhrase) && Contains(p, AiPhrase)
  }

  /** The section test, stated on the cell's text without the truthiness shortcut. */
  predicate SectionOk(c: Cell) {
    Upper(Strip(CellString(c))) == RequiredSection
  }

  /** A row can be examined: all three columns exist and the matricule is present and non-empty. */
  predicate Examined(row: Row) {
    |row| > SectionCol && !row[MatriculeCol].Absent? && NormalizeMatricule(row[MatriculeCol]) != []
  }

  /** The matricule entry of a rejection list. */
  function Entry(id: string, reason: Reason): string {
    id + ": " + reason.Text()
  }

  /** A falsy cell reads as `""` or `"0"`: at most one character, and that a digit. */
  lemma FalsyCellString(c: Cell)
    requires !Truthy(c)
    ensures |CellString(c)| <= 1 && AllDigits(CellString(c))
  {
    if c.Num? {
      assert CellString(c) == [DigitChar(0)];
    }
  }

  /** A falsy cell (absent, empty text, zero) passes neither test. */
  lemma FalsyCellFailsTests(c: Cell)
    requires !Truthy(c)
    ensures !ProgramOk(c) && !SectionOk(c)
  {
    FalsyCellString(c);
    var t := CellString(c);
    var s := Strip(t);
    var p := Lower(s);
    if Contains(p, WebPhrase) {
      ContainsNeedsLength(p, WebPhrase);
      assert false;
    }
    if s != [] {
      StripSplits(t);
      assert s[0] == t[StripStart(t)];
      assert Upper(s)[0] == s[0];
    }
  }

  /** The programme text read by the extractor passes exactly when `ProgramOk` holds. */
  lemma ProgramTextPasses(c: Cell)
    ensures (ProgramText(c) != [] && Contains(ProgramText(c), WebPhrase) && Contains(ProgramText(c), AiPhrase))
            <==> ProgramOk(c)
  {
    if !Truthy(c) {
      FalsyCellFailsTests(c);
    } else if ProgramText(c) == [] && ProgramOk(c) {
      ContainsNeedsLength(ProgramText(c), WebPhrase);
    }
  }

  /** The section text read by the extractor is `"B"` exactly when `SectionOk` holds. */
  lemma SectionTextPasses(c: Cell)
    ensures SectionText(c) == RequiredSection <==> SectionOk(c)
  {
    if !Truthy(c) {
      FalsyCellFailsTests(c);
    }
  }

  /** A row is skipped exactly when a column is missing or the matricule is absent or normalises to nothing. */
  lemma SkippedIff(row: Row)
    ensures Extract(row).Skipped? <==> !Examined(row)
  {
  }

  /**
    A row is accepted exactly when it is examined, its programme contains both
    required phrases and its section is `"B"`; the id is then its normalised
    matricule.
   */
  lemma AcceptedIff(row: Row, id: string)
    ensures Extract(row) == Accepted(id) <==>
      && Examined(row)
      && id == NormalizeMatricule(row[MatriculeCol])
      && ProgramOk(row[ProgramCol])
      && SectionOk(row[SectionCol])
  {
    if Examined(row) {
      ProgramTextPasses(row[ProgramCol]);
      SectionTextPasses(row[SectionCol]);
    }
  }

  /** A failed section test rejects an examined row with the section reason, whatever the programme. */
  lemma SectionReasonWins(row: Row)
    ensures Examined(row) && !SectionOk(row[SectionCol]) ==>
      Extract(row) == Rejected(NormalizeMatricule(row[MatriculeCol]), WrongSection(SectionText(row[SectionCol])))
  {
    if Examined(row) {
      SectionTextPasses(row[SectionCol]);
    }
  }

  /** With a good section, a failed programme test gives a programme reason: empty or incorrect. */
  lemma ProgramReason(row: Row)
    ensures Examined(row) && SectionOk(row[SectionCol]) && !ProgramOk(row[ProgramCol]) ==>
      var p := ProgramText(row[ProgramCol]);
      Extract(row) == Rejected(NormalizeMatricule(row[MatriculeCol]), if p == [] then EmptyProgram else WrongProgram(p))
  {
    if Examined(row) {
      SectionTextPasses(row[SectionCol]);
      ProgramTextPasses(row[ProgramCol]);
    }
  }

  /** Surrounding whitespace and separators in a text matricule are dropped; its digits stay, in order. */
  lemma TextMatriculeIsItsDigits(s: string)
    ensures NormalizeMatricule(Text(s)) == DigitsOf(s)
  {
    StripSplits(s);
    var a, m, b := s[..StripStart(s)], Strip(s), s[StripEnd(s)..];
    FilterEmptyIff(IsDigit, a);
    FilterEmptyIff(IsDigit, b);
    assert Filter(IsDigit, a) == [] && Filter(IsDigit, b) == [];
    calc {
      DigitsOf(s);
      Filter(IsDigit, (a + m) + b);
      { FilterAppend(IsDigit, a + m, b); }
      Filter(IsDigit, a + m) + Filter(IsDigit, b);
      { FilterAppend(IsDigit, a, m); }
      Filter(IsDigit, a) + Filter(IsDigit, m) + Filter(IsDigit, b);
      Filter(IsDigit, m);
    }
  }

  /** A non-negative number and the text of its decimal digits give the same matricule. */
  lemma NumberAndTextAgree(n: nat)
    ensures NormalizeMatricule(Num(n)) == NormalizeMatricule(Text(IntToString(n)))
  {
    TextMatriculeIsItsDigits(IntToString(n));
    FilterKeepsAll(IsDigit, IntToString(n));
  }

  /** The catalog under construction: the valid set and the rejection list. */
  datatype Catalog = Catalog(valid: set<string>, rejections: seq<string>)

  /** What one verdict adds to the catalog: an accepted id joins the set, a rejection appends one entry. */
  function Record(c: Catalog, v: Verdict): Catalog {
    match v
    case Skipped => c
    case Accepted(id) => c.(valid := c.valid + {id})
    case Rejected(id, reason) => c.(rejections := c.rejections + [Entry(id, reason)])
  }

  /** The verdict of every row, in sheet order. */
  function Verdicts(rows: seq<Row>): (vs: seq<Verdict>)
    ensures |vs| == |rows|
    ensures forall i :: 0 <= i < |rows| ==> vs[i] == Extract(rows[i])
  {
    seq(|rows|, i requires 0 <= i < |rows| => Extract(rows[i]))
  }

  /** The verdicts recorded one after the other, as the loop does. */
  function Tally(vs: seq<Verdict>): (c: Catalog)
    ensures forall id :: id in c.valid <==> exists i :: 0 <= i < |vs| && vs[i] == Accepted(id)
    ensures |c.rejections| <= |vs|
    decreases |vs|
  {
    if vs == [] then Catalog({}, [])
    else
      var front := vs[..|vs| - 1];
      assert forall i :: 0 <= i < |front| ==> vs[i] == front[i];
      Record(Tally(front), vs[|vs| - 1])
  }

  /**
    `load_matricules`' loop over the data rows. The catalog is exactly the set
    of matricules of accepted rows: duplicates collapse, and a rejected row
    with the same matricule removes nothing.
   */
  function BuildCatalog(rows: seq<Row>): (c: Catalog)
    ensures forall id :: id in c.valid <==> exists i :: 0 <= i < |rows| && Extract(rows[i]) == Accepted(id)
    ensures |c.rejections| <= |rows|
  {
    var vs := Verdicts(rows);
    assert forall i :: 0 <= i < |rows| ==> vs[i] == Extract(rows[i]);
    Tally(vs)
  }

  /** Positions of the rejected verdicts. */
  function RejectedAt(vs: seq<Verdict>): set<nat> {
    set i: nat | i < |vs| && vs[i].Rejected?
  }

  /** The rejection entries of the rejected verdicts, in order, defined from the front. */
  function RejectionEntries(vs: seq<Verdict>): seq<string> {
    if vs == [] then []
    else
      match vs[0]
      case Rejected(id, reason) => [Entry(id, reason)] + RejectionEntries(vs[1..])
      case _ => RejectionEntries(vs[1..])
  }

  lemma {:induction false} TallyAppend(a: seq<Verdict>, b: seq<Verdict>)
    ensures Tally(a + b).valid == Tally(a).valid + Tally(b).valid
    ensures Tally(a + b).rejections == Tally(a).rejections + Tally(b).rejections
    decreases |b|
  {
    if b == [] {
      assert a + b == a;
    } else {
      var b' := b[..|b| - 1];
      assert (a + b)[..|a + b| - 1] == a + b';
      assert (a + b)[|a + b| - 1] == b[|b| - 1];
      TallyAppend(a, b');
    }
  }

  lemma VerdictsAppend(a: seq<Row>, b: seq<Row>)
    ensures Verdicts(a + b) == Verdicts(a) + Verdicts(b)
  {
    assert forall i :: 0 <= i < |a| ==> (a + b)[i] == a[i];
    assert forall i :: |a| <= i < |a + b| ==> (a + b)[i] == b[i - |a|];
  }

  /** Building over two parts of the sheet is the union of the sets and the concatenation of the lists. */
  lemma BuildCatalogAppend(a: seq<Row>, b: seq<Row>)
    ensures BuildCatalog(a + b).valid == BuildCatalog(a).valid + BuildCatalog(b).valid
    ensures BuildCatalog(a + b).rejections == BuildCatalog(a).rejections + BuildCatalog(b).rejections
  {
    VerdictsAppend(a, b);
    TallyAppend(Verdicts(a), Verdicts(b));
  }

  lemma {:induction false} TallyInOrder(vs: seq<Verdict>)
    ensures Tally(vs).rejections == RejectionEntries(vs)
    decreases |vs|
  {
    if vs != [] {
      var head, tail := [vs[0]], vs[1..];
      assert vs == head + tail;
      TallyAppend(head, tail);
      TallyInOrder(tail);
      assert head[..0] == [];
      assert Tally(head) == Record(Catalog({}, []), vs[0]);
      match vs[0]
      case Rejected(id, reason) =>
        assert Tally(head).rejections == [Entry(id, reason)];
      case _ =>
        assert Tally(head).rejections == [];
    }
  }

  /** The rejection list holds the entries of the rejected rows, in the order of the rows. */
  lemma RejectionsInRowOrder(rows: seq<Row>)
    ensures BuildCatalog(rows).rejections == RejectionEntries(Verdicts(rows))
  {
    TallyInOrder(Verdicts(rows));
  }

  lemma {:induction false} TallyCountsRejections(vs: seq<Verdict>)
    ensures |Tally(vs).rejections| == |RejectedAt(vs)|
    decreases |vs|
  {
    if vs != [] {
      var n := |vs| - 1;
      var front := vs[..n];
      TallyCountsRejections(front);
      assert forall i :: 0 <= i < n ==> vs[i] == front[i];
      if vs[n].Rejected? {
        assert RejectedAt(vs) == RejectedAt(front) + {n};
      } else {
        assert RejectedAt(vs) == RejectedAt(front);
      }
    }
  }

  /** Each rejected row appends exactly one entry: the list is as long as the set of rejected positions. */
  lemma OneEntryPerRejectedRow(rows: seq<Row>)
    ensures |BuildCatalog(rows).rejections| == |RejectedAt(Verdicts(rows))|
  {
    TallyCountsRejections(Verdicts(rows));
  }

  lemma TallySkip(va: seq<Verdict>, vb: seq<Verdict>)
    ensures Tally(va + [Skipped] + vb) == Tally(va + vb)
  {
    TallyAppend(va + [Skipped], vb);
    TallyAppend(va, [Skipped]);
    TallyAppend(va, vb);
    assert [Skipped][..0] == [];
  }

  lemma VerdictsAround(a: seq<Row>, row: Row, b: seq<Row>)
    ensures Verdicts(a + [row] + b) == Verdicts(a) + [Extract(row)] + Verdicts(b)
  {
    VerdictsAppend(a + [row], b);
    VerdictsAppend(a, [row]);
  }

  /** A skipped row anywhere in the sheet adds nothing to the set and nothing to the list. */
  lemma SkippedRowAddsNothing(a: seq<Row>, row: Row, b: seq<Row>)
    ensures Extract(row).Skipped? ==> BuildCatalog(a + [row] + b) == BuildCatalog(a + b)
  {
    if Extract(row).Skipped? {
      VerdictsAround(a, row, b);
      VerdictsAppend(a, b);
      TallySkip(Verdicts(a), Verdicts(b));
    }
  }

  lemma TallyKeepsAccepted(vs: seq<Verdict>, v: Verdict)
    ensures Tally(vs).valid <= Tally(vs + [v]).valid
    ensures v.Accepted? && v.id in Tally(vs).valid ==> Tally(vs + [v]).valid == Tally(vs).valid
  {
    assert (vs + [v])[..|vs|] == vs;
  }

  /**
    Appending a row never removes an accepted id (a rejected row with the same
    matricule included), and an accepted id already present changes nothing.
   */
  lemma AcceptedIdsStay(rows: seq<Row>, row: Row)
    ensures BuildCatalog(rows).valid <= BuildCatalog(rows + [row]).valid
    ensures Extract(row).Accepted? && Extract(row).id in BuildCatalog(rows).valid ==>
      BuildCatalog(rows + [row]).valid == BuildCatalog(rows).valid
  {
    VerdictsAppend(rows, [row]);
    TallyKeepsAccepted(Verdicts(rows), Extract(row));
  }

  /** The workbook as the reader sees it: unreadable, or its rows with the header first. */
  datatype Workbook = Unreadable | Sheet(rows: seq<Row>)

  /** The rows after the header. */
  function DataRows(rows: seq<Row>): seq<Row> {
    if rows == [] then [] else rows[1..]
  }

  /** `load_matricules`: the accepted matricules of the data rows, or nothing if the workbook cannot be read. */
  function LoadMatricules(book: Workbook): (ids: set<string>)
    ensures book.Unreadable? ==> ids == {}
    ensures forall id :: id in ids <==>
      book.Sheet? && exists i :: 1 <= i < |book.rows| && Extract(book.rows[i]) == Accepted(id)
  {
    match book
    case Unreadable => {}
    case Sheet(rows) =>
      var data := DataRows(rows);
      assert forall i :: 1 <= i < |rows| ==> rows[i] == data[i - 1];
      BuildCatalog(data).valid
  }

  /** Every matricule in the catalog is non-empty and came from the matricule column of some data row. */
  lemma CatalogIdsAreMatricules(book: Workbook, id: string)
    ensures id in LoadMatricules(book) ==> id != [] && IsDecimal(id)
    ensures id in LoadMatricules(book) ==>
      exists i :: (1 <= i < |book.rows| && Examined(book.rows[i]) &&
                   id == NormalizeMatricule(book.rows[i][MatriculeCol]))
  {
    if id in LoadMatricules(book) {
      var i :| 1 <= i < |book.rows| && Extract(book.rows[i]) == Accepted(id);
      SkippedIff(book.rows[i]);
      var c := book.rows[i][MatriculeCol];
      if c.Text? {
        assert AllDigits(id);
      }
    }
  }

  /** The header row is never read as data, whatever it holds. */
  lemma HeaderRowIgnored(header: Row, data: seq<Row>)
    ensures LoadMatricules(Sheet([header] + data)) == BuildCatalog(data).valid
  {
    assert ([header] + data)[1..] == data;
  }

  /** A negative number keeps its minus sign, unlike text, which keeps digits only. */
  lemma NegativeNumberKeepsSign(n: int)
    requires n < 0
    ensures NormalizeMatricule(Num(n))[0] == '-'
    ensures !AllDigits(NormalizeMatricule(Num(n)))
  {
  }
}
