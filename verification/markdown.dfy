/**
 The Markdown table generator (generate-instances-markdown.py): each instance
 record becomes one six-cell table row (address, network, version, location,
 cloudflare mark, comment) or is skipped, and the table is a fixed two-line
 preamble followed by the rows in catalog order. A country code is shown
 with its flag, the pair of Regional Indicator Symbols U+1F1E6..U+1F1FF.
 */
module Markdown {
  import opened Instances
  import Strings

  // ---------------------------------------------------------------------------
  // Flags
  // ---------------------------------------------------------------------------

  /** Added to an upper-case letter's code point to reach its Regional
      Indicator Symbol ('A' + Offset == U+1F1E6). */
  const Offset: int := 127397

  /** The largest code point `chr` accepts. */
  const MaxCodePoint: int := 0x10FFFF

  /** `str.upper` on one character, restricted to ASCII: the result is never
      a lower-case letter, only lower-case letters change, and a letter of
      either case ends up as the upper-case letter at the same alphabet
      position. */
  function Upper(c: char): (u: char)
    ensures !('a' <= u <= 'z')
    ensures u == c <==> !('a' <= c <= 'z')
    ensures IsLetter(c) ==> 'A' <= u <= 'Z' && (u as int - 'A' as int) == (c as int - 'A' as int) % 32
  {
    if 'a' <= c <= 'z' then (c as int - 32) as char else c
  }

  predicate IsLetter(c: char)
  {
    'A' <= c <= 'Z' || 'a' <= c <= 'z'
  }

  predicate IsIndicator(c: char)
  {
    0x1F1E6 <= c as int <= 0x1F1FF
  }

  /** `chr(ord(c.upper()) + OFFSET)`, or `None` where `chr` raises
      `ValueError` (the sum lies beyond the last code point). */
  function Indicator(c: char): (r: Option<char>)
    ensures r.Some? <==> Upper(c) as int + Offset <= MaxCodePoint
    ensures r.Some? ==> r.value as int - Offset == Upper(c) as int
    ensures IsLetter(c) ==> r.Some? && IsIndicator(r.value)
  {
    var n := Upper(c) as int + Offset;
    if n <= MaxCodePoint then Some(n as char) else None
  }

  /** `flag(code)`: `None` stands for the exception Python raises. The empty
      code gives the empty flag; otherwise the first two characters, upper
      cased, are shifted by 127397 (into the indicator block for letters) and
      the rest is ignored. */
  function Flag(code: string): (r: Option<string>)
    ensures code == [] ==> r == Some([])
    ensures |code| == 1 ==> r.None?
    ensures |code| >= 2 ==> (r.Some? <==> Indicator(code[0]).Some? && Indicator(code[1]).Some?)
    ensures r.Some? ==> |r.value| == (if code == [] then 0 else 2)
    ensures r.Some? ==> forall i :: 0 <= i < |r.value| ==> r.value[i] as int - Offset == Upper(code[i]) as int
  {
    if code == [] then Some([])
    else if |code| < 2 then None
    else
      match (Indicator(code[0]), Indicator(code[1]))
      case (Some(a), Some(b)) => Some([a, b])
      case _ => None
  }

  /** Reads a flag back into the upper-case country code it stands for. */
  function Unflag(s: string): (r: Option<string>)
    ensures r.Some? ==> |r.value| == 2 && 'A' <= r.value[0] <= 'Z' && 'A' <= r.value[1] <= 'Z'
    ensures r.Some? <==> |s| == 2 && IsIndicator(s[0]) && IsIndicator(s[1])
  {
    if |s| == 2 && IsIndicator(s[0]) && IsIndicator(s[1])
    then Some([(s[0] as int - Offset) as char, (s[1] as int - Offset) as char])
    else None
  }

  /** The flag of a code whose first two characters are letters is a pair of
      Regional Indicator Symbols that reads back as those letters upper cased. */
  lemma FlagOfLetters(code: string)
    requires |code| >= 2 && IsLetter(code[0]) && IsLetter(code[1])
    ensures Flag(code).Some?
    ensures IsIndicator(Flag(code).value[0]) && IsIndicator(Flag(code).value[1])
    ensures Unflag(Flag(code).value) == Some([Upper(code[0]), Upper(code[1])])
  {
  }

  /** Every pair of Regional Indicator Symbols is the flag of exactly the code
      it reads back as: together with FlagOfLetters, `flag` is a bijection
      between upper-case letter pairs and indicator pairs. */
  lemma UnflagThenFlag(s: string)
    requires Unflag(s).Some?
    ensures Flag(Unflag(s).value) == Some(s)
  {
    var c := Unflag(s).value;
    assert Upper(c[0]) == c[0] && Upper(c[1]) == c[1];
    assert Indicator(c[0]) == Some(s[0]);
    assert Indicator(c[1]) == Some(s[1]);
    assert s == [s[0], s[1]];
  }

  /** `flag` looks at the first two characters only, and not at their case. */
  lemma FlagIgnoresCaseAndTail(code: string)
    requires |code| >= 2
    ensures Flag(code) == Flag([Upper(code[0]), Upper(code[1])])
  {
  }

  // ---------------------------------------------------------------------------
  // Rows
  // ---------------------------------------------------------------------------

  /** The location cell: `flag(country) + " " + country`, or the bare
      country when `flag` (or the concatenation) raises. A boolean country
      always raises: `True.upper()` does not exist, and `flag(False)` returns
      "" which cannot be concatenated with a bool. */
  function Location(country: Value): (r: string)
    ensures |Text(country)| <= |r| && r[|r| - |Text(country)|..] == Text(country)
    ensures r == Text(country) || (country.Str? && Flag(country.s).Some? && r == Flag(country.s).value + " " + country.s)
    ensures country.Str? && Flag(country.s).Some? ==> r != Text(country)
  {
    match country
    case Str(s) =>
      (match Flag(s)
       case Some(fl) => fl + " " + s
       case None => s)
    case Bool(_) => Text(country)
  }

  /** An empty country shows as a single space. */
  lemma LocationOfEmpty()
    ensures Location(Str("")) == " "
  {
  }

  /** A one-character country has no flag and shows as itself. */
  lemma LocationOfOneChar(s: string)
    requires |s| == 1
    ensures Location(Str(s)) == s
  {
  }

  /** A two-letter country code shows as its flag, a space, and the code. */
  lemma LocationOfCode(code: string)
    requires |code| == 2 && IsLetter(code[0]) && IsLetter(code[1])
    ensures |Location(Str(code))| == 5
    ensures Unflag(Location(Str(code))[..2]) == Some([Upper(code[0]), Upper(code[1])])
    ensures Location(Str(code))[2..] == " " + code
  {
  }

  /** A missing country is the text "(n/a)", which `flag` does not reject:
      '(' and 'N' shift to U+1F1CD and U+1F1F3, so the cell carries that pair
      in front of "(n/a)". */
  lemma AbsentCountryLocation()
    ensures Location(DefaultCountry) == "\U{1F1CD}\U{1F1F3} (n/a)"
  {
  }

  /** The network a row is listed under, and the record key it comes from. */
  datatype Network = WWW | Tor | I2P {
    function Key(): string
    {
      match this
      case WWW => "url"
      case Tor => "onion"
      case I2P => "i2p"
    }

    function Label(): string
    {
      match this
      case WWW => "WWW"
      case Tor => "Tor"
      case I2P => "I2P"
    }
  }

  /** One table row before it is written out. */
  datatype Row = Row(address: string, network: Network, version: string,
                     location: string, cloudflare: bool, comment: string)

  const DefaultCountry: Value := Str("(n/a)")

  /** U+2705 WHITE HEAVY CHECK MARK. */
  const Checkmark: string := "\U{2705}"

  /** The first of `url`, `onion`, `i2p` present in the record. */
  function AddressOf(rec: Record): (r: Option<Network>)
    ensures r.Some? ==> r.value.Key() in rec
    ensures r.None? <==> "url" !in rec && "onion" !in rec && "i2p" !in rec
    ensures r == Some(WWW) <==> "url" in rec
    ensures r == Some(Tor) <==> "url" !in rec && "onion" in rec
    ensures r == Some(I2P) <==> "url" !in rec && "onion" !in rec && "i2p" in rec
  {
    if "url" in rec then Some(WWW)
    else if "onion" in rec then Some(Tor)
    else if "i2p" in rec then Some(I2P)
    else None
  }

  /** The loop body of the generator: the row for one record, or `None` when
      the record is skipped. */
  function BuildRow(rec: Record): (r: Option<Row>)
    ensures r.Some? <==> ("url" in rec || "onion" in rec || "i2p" in rec) && "version" in rec
  {
    match AddressOf(rec)
    case None => None
    case Some(network) =>
      if "version" !in rec then None
      else
        var country := if "country" in rec then rec["country"] else DefaultCountry;
        var cloudflare := "cloudflare" in rec && Truthy(rec["cloudflare"]);
        var description := if "description" in rec then Text(rec["description"]) else "";
        Some(Row(Text(rec[network.Key()]), network, Text(rec["version"]),
                 Location(country), cloudflare, description))
  }

  /** What each cell of a built row holds: the address under the first
      present key of `url`, `onion`, `i2p`; the version; the location of the
      country, "(n/a)" when absent; the Cloudflare mark exactly when
      `cloudflare` is present and truthy; the description, "" when absent. */
  lemma BuildRowCells(rec: Record)
    requires BuildRow(rec).Some?
    ensures var row := BuildRow(rec).value;
      && row.network == (if "url" in rec then WWW else if "onion" in rec then Tor else I2P)
      && row.address == Text(rec[row.network.Key()])
      && row.version == Text(rec["version"])
      && ("country" in rec ==> row.location == Location(rec["country"]))
      && ("country" !in rec ==> row.location == Location(DefaultCountry))
      && (row.cloudflare <==> "cloudflare" in rec && Truthy(rec["cloudflare"]))
      && ("description" in rec ==> row.comment == Text(rec["description"]))
      && ("description" !in rec ==> row.comment == "")
  {
  }

  function CloudflareCell(cloudflare: bool): string
  {
    if cloudflare then Checkmark else ""
  }

  /** The six cells of a row, left to right. */
  function Cells(row: Row): seq<string>
  {
    [row.address, row.network.Label(), row.version, row.location,
     CloudflareCell(row.cloudflare), row.comment]
  }

  /** A row as one table line: its six cells fenced by `|`. */
  function RowLine(row: Row): string
  {
    Strings.Join([""] + Cells(row) + [""], '|')
  }

  /** `"|{0}|{1}|{2}|{3}|{4}|{5}|\n".format(...)`: `|`, each cell followed
      by `|`, then the line break. */
  function FormatRow(row: Row): string
  {
    RowLine(row) + "\n"
  }

  /** A row whose free-text cells hold neither `|` nor a line break. */
  predicate Clean(row: Row)
  {
    forall c :: c in [row.address, row.version, row.location, row.comment] ==> '|' !in c && '\n' !in c
  }

  function NetworkOfLabel(cell: string): (r: Option<Network>)
    ensures r.Some? ==> r.value.Label() == cell
  {
    if cell == "WWW" then Some(WWW)
    else if cell == "Tor" then Some(Tor)
    else if cell == "I2P" then Some(I2P)
    else None
  }

  function CloudflareOfCell(cell: string): (r: Option<bool>)
    ensures r.Some? ==> CloudflareCell(r.value) == cell
  {
    if cell == Checkmark then Some(true)
    else if cell == "" then Some(false)
    else None
  }

  /** Reads one table line (without its line break) back into a row. */
  function ParseRow(line: string): Option<Row>
  {
    var cells := Strings.Split(line, '|');
    if |cells| == 8 && cells[0] == [] && cells[7] == [] then
      match (NetworkOfLabel(cells[2]), CloudflareOfCell(cells[5]))
      case (Some(network), Some(cloudflare)) =>
        Some(Row(cells[1], network, cells[3], cells[4], cloudflare, cells[6]))
      case _ => None
    else None
  }

  /** A row line reads back as the row, when its cells are clean. */
  lemma ParseRowLine(row: Row)
    requires Clean(row)
    ensures '\n' !in RowLine(row)
    ensures ParseRow(RowLine(row)) == Some(row)
  {
    var parts := [""] + Cells(row) + [""];
    assert row.address in [row.address, row.version, row.location, row.comment];
    assert row.version in [row.address, row.version, row.location, row.comment];
    assert row.location in [row.address, row.version, row.location, row.comment];
    assert row.comment in [row.address, row.version, row.location, row.comment];
    assert '|' !in row.network.Label() && '\n' !in row.network.Label();
    assert '|' !in CloudflareCell(row.cloudflare) && '\n' !in CloudflareCell(row.cloudflare);
    assert forall i :: 0 <= i < |parts| ==> '|' !in parts[i] && '\n' !in parts[i];
    Strings.SplitJoin(parts, '|');
    Strings.JoinAvoids(parts, '|', '\n');
    assert NetworkOfLabel(row.network.Label()) == Some(row.network);
    assert CloudflareOfCell(CloudflareCell(row.cloudflare)) == Some(row.cloudflare);
  }

  // ---------------------------------------------------------------------------
  // The table
  // ---------------------------------------------------------------------------

  /** The column titles, `|URL|Network|Version|Location|Behind Cloudflare?|Comment|`. */
  const HeaderLine: string := "|URL|Network|" + "Version|Location|" + "Behind Cloudflare?|" + "Comment|"

  /** The delimiter line, `|-|-|-|-|-|-|`. */
  const RuleLine: string := "|-|-|-|-|-|-|"

  /** The fixed two-line start of every table. */
  const Preamble: string := HeaderLine + "\n" + RuleLine + "\n"

  /** The row one record contributes: its built row, or none. */
  function RowOf(rec: Record): seq<Row>
  {
    match BuildRow(rec)
    case Some(row) => [row]
    case None => []
  }

  /** The rows of the kept records, in catalog order. */
  function Rows(instances: seq<Record>): (rows: seq<Row>)
    ensures |rows| <= |instances|
  {
    if instances == [] then []
    else RowOf(instances[0]) + Rows(instances[1..])
  }

  /** A row is in the table exactly when some record of the catalog builds it. */
  lemma {:induction false} RowsMembers(instances: seq<Record>, row: Row)
    ensures row in Rows(instances) <==> exists rec :: rec in instances && BuildRow(rec) == Some(row)
  {
    if row in Rows(instances) {
      var i := RowSource(instances, row);
      assert instances[i] in instances;
    }
    if exists rec :: rec in instances && BuildRow(rec) == Some(row) {
      var rec :| rec in instances && BuildRow(rec) == Some(row);
      var i :| 0 <= i < |instances| && instances[i] == rec;
      RowOfRecord(instances, i);
    }
  }

  /** The record a row of the table was built from. */
  lemma {:induction false} RowSource(instances: seq<Record>, row: Row) returns (i: nat)
    requires row in Rows(instances)
    ensures i < |instances| && BuildRow(instances[i]) == Some(row)
    decreases |instances|
  {
    assert Rows(instances) == RowOf(instances[0]) + Rows(instances[1..]);
    if row in RowOf(instances[0]) {
      i := 0;
    } else {
      var j := RowSource(instances[1..], row);
      i := j + 1;
    }
  }

  /** The row a record builds is in the table. */
  lemma {:induction false} RowOfRecord(instances: seq<Record>, i: nat)
    requires i < |instances| && BuildRow(instances[i]).Some?
    ensures BuildRow(instances[i]).value in Rows(instances)
    decreases i
  {
    assert Rows(instances) == RowOf(instances[0]) + Rows(instances[1..]);
    if i > 0 {
      RowOfRecord(instances[1..], i - 1);
    }
  }

  /** The written rows, one after another. */
  function Body(rows: seq<Row>): string
  {
    if rows == [] then [] else FormatRow(rows[0]) + Body(rows[1..])
  }

  /** The whole file the generator writes for a catalog's instances. */
  function Table(instances: seq<Record>): (t: string)
    ensures |Preamble| <= |t| && t[..|Preamble|] == Preamble
    ensures instances == [] ==> t == Preamble
  {
    Preamble + Body(Rows(instances))
  }

  /** Rows are produced record by record: the rows of a concatenation are the
      rows of each part, in order. */
  lemma {:induction false} RowsAppend(a: seq<Record>, b: seq<Record>)
    ensures Rows(a + b) == Rows(a) + Rows(b)
    decreases |a|
  {
    if a != [] {
      var ab := a + b;
      assert ab[0] == a[0] && ab[1..] == a[1..] + b;
      RowsAppend(a[1..], b);
      calc {
        Rows(ab);
        RowOf(a[0]) + Rows(a[1..] + b);
        RowOf(a[0]) + (Rows(a[1..]) + Rows(b));
        (RowOf(a[0]) + Rows(a[1..])) + Rows(b);
      }
    } else {
      assert a + b == b;
    }
  }

  lemma {:induction false} BodyAppend(a: seq<Row>, b: seq<Row>)
    ensures Body(a + b) == Body(a) + Body(b)
    decreases |a|
  {
    if a != [] {
      assert (a + b)[1..] == a[1..] + b;
      BodyAppend(a[1..], b);
    } else {
      assert a + b == b;
    }
  }

  /** The same, behind any text already written. */
  lemma BodyAppendAfter(p: string, a: seq<Row>, b: seq<Row>)
    ensures p + Body(a + b) == (p + Body(a)) + Body(b)
  {
    BodyAppend(a, b);
    assert p + (Body(a) + Body(b)) == (p + Body(a)) + Body(b);
  }

  lemma RowsOfOne(rec: Record)
    ensures Rows([rec]) == if BuildRow(rec).Some? then [BuildRow(rec).value] else []
  {
  }

  lemma BodyOfOne(row: Row)
    ensures Body([row]) == FormatRow(row)
  {
  }

  /** Appending a record appends its row, if any, and leaves the rest of the
      table as it was. */
  lemma TableAppend(instances: seq<Record>, rec: Record)
    ensures BuildRow(rec).None? ==> Table(instances + [rec]) == Table(instances)
    ensures BuildRow(rec).Some? ==> Table(instances + [rec]) == Table(instances) + FormatRow(BuildRow(rec).value)
  {
    var rows := Rows(instances);
    var last := Rows([rec]);
    RowsAppend(instances, [rec]);
    BodyAppendAfter(Preamble, rows, last);
    RowsOfOne(rec);
    if BuildRow(rec).Some? {
      BodyOfOne(BuildRow(rec).value);
    }
  }

  /** Reads a table back: the two preamble lines, then one row per line. */
  function ParseTable(t: string): Option<seq<Row>>
  {
    var lines := Strings.Split(t, '\n');
    if |lines| >= 3 && lines[0] == HeaderLine && lines[1] == RuleLine && lines[|lines| - 1] == []
    then ParseLines(lines[2..|lines| - 1])
    else None
  }

  function ParseLines(lines: seq<string>): Option<seq<Row>>
  {
    if lines == [] then Some([])
    else
      match (ParseRow(lines[0]), ParseLines(lines[1..]))
      case (Some(row), Some(rows)) => Some([row] + rows)
      case _ => None
  }

  function Lines(rows: seq<Row>): seq<string>
  {
    seq(|rows|, i requires 0 <= i < |rows| => RowLine(rows[i]))
  }

  lemma {:induction false} BodyIsJoin(rows: seq<Row>)
    ensures Body(rows) == Strings.Join(Lines(rows) + [""], '\n')
    decreases |rows|
  {
    if rows != [] {
      BodyIsJoin(rows[1..]);
      var parts := Lines(rows) + [""];
      assert parts[0] == RowLine(rows[0]);
      assert parts[1..] == Lines(rows[1..]) + [""];
    }
  }

  lemma {:induction false} ParseLinesOfRows(rows: seq<Row>)
    requires forall row :: row in rows ==> Clean(row)
    ensures ParseLines(Lines(rows)) == Some(rows)
    decreases |rows|
  {
    if rows != [] {
      ParseRowLine(rows[0]);
      ParseLinesOfRows(rows[1..]);
      assert Lines(rows)[1..] == Lines(rows[1..]);
      assert rows == [rows[0]] + rows[1..];
    }
  }

  /** The table is its lines joined by line breaks, the last one empty. */
  lemma TableIsJoin(instances: seq<Record>)
    ensures Table(instances) == Strings.Join([HeaderLine, RuleLine] + Lines(Rows(instances)) + [""], '\n')
  {
    var rows := Rows(instances);
    var tail := Lines(rows) + [""];
    BodyIsJoin(rows);
    Strings.JoinTwoMore(HeaderLine, RuleLine, tail, '\n');
    Strings.Regroup(HeaderLine, RuleLine, Body(rows), '\n');
    assert [HeaderLine, RuleLine] + Lines(rows) + [""] == [HeaderLine, RuleLine] + tail;
  }

  /** No line of a table of clean rows holds a line break. */
  lemma TableLinesFree(rows: seq<Row>)
    requires forall row :: row in rows ==> Clean(row)
    ensures var parts := [HeaderLine, RuleLine] + Lines(rows) + [""];
      forall i :: 0 <= i < |parts| ==> '\n' !in parts[i]
  {
    var lines := Lines(rows);
    forall j | 0 <= j < |lines|
      ensures '\n' !in lines[j]
    {
      ParseRowLine(rows[j]);
    }
    PreambleLinesFree();
    var parts := [HeaderLine, RuleLine] + lines + [""];
    assert forall i :: 2 <= i < |parts| - 1 ==> parts[i] == lines[i - 2];
  }

  lemma PreambleLinesFree()
    ensures '\n' !in HeaderLine && '\n' !in RuleLine
  {
  }

  /** The table reads back as exactly the rows of the kept records, in order,
      when no cell holds `|` or a line break. */
  lemma TableRoundTrip(instances: seq<Record>)
    requires forall row :: row in Rows(instances) ==> Clean(row)
    ensures ParseTable(Table(instances)) == Some(Rows(instances))
  {
    var rows := Rows(instances);
    var parts := [HeaderLine, RuleLine] + Lines(rows) + [""];
    TableIsJoin(instances);
    TableLinesFree(rows);
    Strings.SplitJoin(parts, '\n');
    assert parts[2..|parts| - 1] == Lines(rows);
    ParseLinesOfRows(rows);
  }
}
