/**
 * The codebook file: one line `code, symbol` per entry of the reverse table,
 * read back by splitting each line at commas and dropping the first
 * character (the space) of the second field. Only this line shape is
 * modelled, not the quoting rules of the csv reader.
 */
module Codebook {
  import opened Wrappers
  import opened Collections

  /** The row written for one entry of the reverse table, `"%s, %s" % (code, symbol)`, without its line feed. */
  function CodebookRow(code: string, symbol: char): string {
    code + ", " + [symbol]
  }

  /** The line written for one entry of the reverse table: `"%s, %s\n" % (code, symbol)`. */
  function CodebookLine(code: string, symbol: char): string {
    CodebookRow(code, symbol) + "\n"
  }

  /** The codebook text written for the keys `order` of `table`, in that order. */
  function CodebookText(order: seq<string>, table: map<string, char>): string
    requires forall i :: 0 <= i < |order| ==> order[i] in table
  {
    if order == [] then "" else CodebookLine(order[0], table[order[0]]) + CodebookText(order[1..], table)
  }

  lemma {:induction false} CodebookTextSnoc(order: seq<string>, k: string, table: map<string, char>)
    requires forall i :: 0 <= i < |order| ==> order[i] in table
    requires k in table
    ensures CodebookText(order + [k], table) == CodebookText(order, table) + CodebookLine(k, table[k])
  {
    if order == [] {
      assert order + [k] == [k];
    } else {
      assert (order + [k])[0] == order[0] && (order + [k])[1..] == order[1..] + [k];
      CodebookTextSnoc(order[1..], k, table);
    }
  }

  /** The index of the first `c` in `s`, or `|s|` when there is none. */
  function IndexOf(s: string, c: char): (i: nat)
    ensures i <= |s|
    ensures i < |s| ==> s[i] == c
    ensures forall j :: 0 <= j < i ==> s[j] != c
  {
    if s == [] || s[0] == c then 0 else 1 + IndexOf(s[1..], c)
  }

  /** The lines of a text: split at each line feed, with no final empty line after a closing line feed. */
  function Lines(content: string): seq<string>
    decreases |content|
  {
    if content == [] then []
    else
      var i := IndexOf(content, '\n');
      [content[..i]] + (if i == |content| then [] else Lines(content[i + 1..]))
  }

  /**
   * One row `rows` of the reader as the dictionary comprehension uses it: the key `rows[0]`
   * and the value `rows[1][1:]`. A line without a comma has no `rows[1]` and raises.
   */
  function ParseRow(line: string): (r: Option<(string, string)>)
    ensures r.None? <==> ',' !in line
    ensures r.Some? ==> var k := r.value.0; |k| < |line| && line[..|k|] == k && line[|k|] == ',' && ',' !in k
  {
    var i := IndexOf(line, ',');
    if i == |line| then None
    else
      var after := line[i + 1..];
      var second := after[..IndexOf(after, ',')];
      Some((line[..i], if second == [] then [] else second[1..]))
  }

  /** The comprehension `{rows[0]: rows[1][1:] for rows in reader}` over the rows `lines`, added to `m`. */
  function ParseRows(lines: seq<string>, m: map<string, string>): (r: Option<map<string, string>>)
    ensures r.None? <==> exists i :: 0 <= i < |lines| && ',' !in lines[i]
    ensures r.Some? ==> m.Keys <= r.value.Keys
    decreases |lines|
  {
    if lines == [] then Some(m)
    else
      match ParseRow(lines[0])
      case None => None
      case Some((k, v)) =>
        var r := ParseRows(lines[1..], m[k := v]);
        assert (exists i :: 0 <= i < |lines| && ',' !in lines[i]) <==> (exists i :: 0 <= i < |lines[1..]| && ',' !in lines[1..][i]) by {
          if exists i :: 0 <= i < |lines| && ',' !in lines[i] {
            var i :| 0 <= i < |lines| && ',' !in lines[i];
            assert i > 0 && lines[1..][i - 1] == lines[i];
          }
          if exists i :: 0 <= i < |lines[1..]| && ',' !in lines[1..][i] {
            var i :| 0 <= i < |lines[1..]| && ',' !in lines[1..][i];
            assert lines[i + 1] == lines[1..][i];
          }
        }
        r
  }

  /** The reverse table read back from a codebook text; `None` exactly when one of its lines has no comma, so `rows[1]` raises. */
  function ParseCodebook(content: string): (r: Option<map<string, string>>)
    ensures r.None? <==> exists i :: 0 <= i < |Lines(content)| && ',' !in Lines(content)[i]
  {
    ParseRows(Lines(content), map[])
  }

  /** A code that survives the line format: no comma, no line break, and no quote, whose quoting rules the reader would apply at the start of a field. */
  predicate PlainCode(code: string) {
    ',' !in code && '\n' !in code && '\r' !in code && '"' !in code
  }

  /**
   * A symbol that survives the line format: not a comma (the row would split there and
   * read back as "") and not a line break (the row would end there). A quote is fine: it
   * follows the space, so the reader keeps it literally.
   */
  predicate PlainSymbol(c: char) {
    c != ',' && c != '\n' && c != '\r'
  }

  /** The in-memory reverse table with each symbol as a one-character string, as the reader returns it. */
  function Lift(table: map<string, char>): map<string, string> {
    map k | k in table :: [table[k]]
  }

  lemma LinesCons(line: string, rest: string)
    requires '\n' !in line
    ensures Lines(line + "\n" + rest) == [line] + Lines(rest)
  {
    var s := line + "\n" + rest;
    assert IndexOf(s, '\n') == |line| by {
      assert s[|line|] == '\n';
      forall j | 0 <= j < |line| ensures s[j] != '\n' {
        assert s[j] == line[j];
      }
      IndexOfIsFirst(s, '\n', |line|);
    }
    assert s[..|line|] == line && s[|line| + 1..] == rest;
  }

  lemma IndexOfIsFirst(s: string, c: char, i: nat)
    requires i < |s| && s[i] == c && forall j :: 0 <= j < i ==> s[j] != c
    ensures IndexOf(s, c) == i
  {
  }

  /** A codebook line parses back into its code and its symbol. */
  lemma ParseLine(code: string, symbol: char)
    requires PlainCode(code) && PlainSymbol(symbol)
    ensures ParseRow(CodebookRow(code, symbol)) == Some((code, [symbol]))
  {
    var line := CodebookRow(code, symbol);
    assert line[|code|] == ',';
    forall j | 0 <= j < |code| ensures line[j] != ',' {
      assert line[j] == code[j];
    }
    IndexOfIsFirst(line, ',', |code|);
    var after := line[|code| + 1..];
    assert after == " " + [symbol];
    assert IndexOf(after, ',') == 2;
    assert after[..2] == " " + [symbol];
    assert line[..|code|] == code;
  }

  /** The codebook lines of the keys `order`, without their line feeds. */
  function EntryRows(order: seq<string>, table: map<string, char>): seq<string>
    requires forall i :: 0 <= i < |order| ==> order[i] in table
  {
    seq(|order|, i requires 0 <= i < |order| => CodebookRow(order[i], table[order[i]]))
  }

  /** The lines of a codebook text are its entries' lines without their line feeds. */
  lemma {:induction false} CodebookLines(order: seq<string>, table: map<string, char>)
    requires forall i :: 0 <= i < |order| ==> order[i] in table && PlainCode(order[i]) && PlainSymbol(table[order[i]])
    ensures Lines(CodebookText(order, table)) == EntryRows(order, table)
  {
    if order != [] {
      var k := order[0];
      var row, rest := CodebookRow(k, table[k]), CodebookText(order[1..], table);
      CodebookLines(order[1..], table);
      RowHasNoLineFeed(k, table[k]);
      assert CodebookText(order, table) == row + "\n" + rest;
      LinesCons(row, rest);
      EntryRowsCons(order, table);
    }
  }

  /** A row of a plain code and a plain symbol holds no line feed. */
  lemma RowHasNoLineFeed(code: string, symbol: char)
    requires PlainCode(code) && PlainSymbol(symbol)
    ensures '\n' !in CodebookRow(code, symbol)
  {
  }

  /** The rows of the keys `order` are the first key's row followed by the rows of the others. */
  lemma EntryRowsCons(order: seq<string>, table: map<string, char>)
    requires order != [] && forall i :: 0 <= i < |order| ==> order[i] in table
    ensures EntryRows(order, table) == [CodebookRow(order[0], table[order[0]])] + EntryRows(order[1..], table)
  {
  }

  /** Reading back the rows of distinct plain entries adds each code with its symbol. */
  lemma {:induction false} ParseEntries(order: seq<string>, table: map<string, char>, m: map<string, string>)
    requires NoDup(order)
    requires forall i :: 0 <= i < |order| ==> order[i] in table && PlainCode(order[i]) && PlainSymbol(table[order[i]])
    ensures ParseRows(EntryRows(order, table), m).Some?
    ensures var r := ParseRows(EntryRows(order, table), m).value;
      (forall k :: k in r <==> k in m || k in order) &&
      (forall k :: k in order ==> r[k] == [table[k]]) &&
      (forall k :: k in m && k !in order ==> r[k] == m[k])
  {
    var rows := EntryRows(order, table);
    if order != [] {
      var k := order[0];
      ParseLine(k, table[k]);
      var rest := order[1..];
      assert NoDup(rest) by {
        forall a, b | 0 <= a < |rest| && 0 <= b < |rest| && a != b ensures rest[a] != rest[b] {
          assert rest[a] == order[a + 1] && rest[b] == order[b + 1];
        }
      }
      assert k !in rest by {
        forall a | 0 <= a < |rest| ensures rest[a] != k {
          assert rest[a] == order[a + 1];
        }
      }
      assert rows[1..] == EntryRows(rest, table);
      ParseEntries(rest, table, m[k := [table[k]]]);
      assert order == [k] + rest;
    }
  }

  /** Reading back the codebook written for a reverse table of plain entries, in any key order, gives that table. */
  lemma CodebookRoundTrip(order: seq<string>, table: map<string, char>)
    requires Enumerates(order, table.Keys)
    requires forall k :: k in table ==> PlainCode(k) && PlainSymbol(table[k])
    ensures ParseCodebook(CodebookText(order, table)) == Some(Lift(table))
  {
    var rows := EntryRows(order, table);
    assert forall i :: 0 <= i < |order| ==> order[i] in table && PlainCode(order[i]) && PlainSymbol(table[order[i]]) by {
      forall i | 0 <= i < |order| ensures order[i] in table && PlainCode(order[i]) && PlainSymbol(table[order[i]]) {
        assert order[i] in order;
      }
    }
    CodebookLines(order, table);
    assert ParseCodebook(CodebookText(order, table)) == ParseRows(rows, map[]);
    ParseEntries(order, table, map[]);
    ParsedIsLift(order, table, ParseRows(rows, map[]).value);
  }

  /** A dictionary holding exactly the keys `order` of `table`, each with its symbol as a string, is the lifted table. */
  lemma ParsedIsLift(order: seq<string>, table: map<string, char>, r: map<string, string>)
    requires Enumerates(order, table.Keys)
    requires forall k :: k in r <==> k in order
    requires forall k :: k in order ==> r[k] == [table[k]]
    ensures r == Lift(table)
  {
    var lifted := Lift(table);
    assert forall k :: k in r <==> k in lifted;
    assert forall k :: k in r ==> r[k] == lifted[k];
  }
}
