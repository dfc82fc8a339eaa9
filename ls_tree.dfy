/**
 * One line of `git ls-tree -r <commit>` output, split the way the visualizer
 * does it: `mode, type_, hash_, path = obj.strip().split(None, 3)`.
 * git prints `<mode> SP <type> SP <hash> TAB <path>`; the fourth field is the
 * rest of the stripped line, so a path with inner spaces stays whole.
 */
module LsTree {
  import opened PyStr
  import opened Wrappers

  datatype Entry = Entry(mode: string, kind: string, hash: string, path: string)

  /** The `ValueError` of the four-way unpack: fewer than four fields. */
  datatype ParseError = NotEnoughValues(got: nat)

  /** `obj.strip().split(None, 3)` followed by the four-way unpack. */
  function ParseLine(line: string): Result<Entry, ParseError> {
    var fields := SplitWs(Strip(line), 3);
    if |fields| == 4 then Ok(Entry(fields[0], fields[1], fields[2], fields[3]))
    else Err(NotEnoughValues(|fields|))
  }

  /** A listing's lines, each parsed on its own. */
  function ParseAll(lines: seq<string>): (rs: seq<Result<Entry, ParseError>>)
    ensures |rs| == |lines|
    decreases |lines|
  {
    if lines == [] then [] else ParseAll(lines[..|lines| - 1]) + [ParseLine(lines[|lines| - 1])]
  }

  /** The four fields of an entry separated by the given whitespace runs. */
  function Layout(e: Entry, sep1: string, sep2: string, sep3: string): string {
    e.mode + sep1 + e.kind + sep2 + e.hash + sep3 + e.path
  }

  /** The line git prints for an entry: `<mode> SP <type> SP <hash> TAB <path>`. */
  function FormatLine(e: Entry): string {
    Layout(e, " ", " ", "\t")
  }

  /** What a parsed entry looks like: three non-empty fields without
      whitespace and a non-empty path that neither starts nor ends with
      whitespace (inner whitespace is allowed). */
  predicate WellFormed(e: Entry) {
    && e.mode != [] && NoSpace(e.mode)
    && e.kind != [] && NoSpace(e.kind)
    && e.hash != [] && NoSpace(e.hash)
    && e.path != [] && !IsSpace(e.path[0]) && !IsSpace(e.path[|e.path| - 1])
  }

  /** The unpack fails exactly when the line has fewer than four
      whitespace-separated fields, and reports how many it had. */
  lemma ParseLineFails(line: string)
    ensures ParseLine(line).Err? <==> |Words(line)| < 4
    ensures ParseLine(line).Err? ==> ParseLine(line).error.got == |Words(line)|
  {
    SplitWsLength(Strip(line), 3);
    WordsOfStrip(line);
  }

  /** On success the first three fields are the first three words of the line. */
  lemma ParseLineFields(line: string)
    requires ParseLine(line).Ok?
    ensures 4 <= |Words(line)|
    ensures var e := ParseLine(line).value;
            e.mode == Words(line)[0] && e.kind == Words(line)[1] && e.hash == Words(line)[2]
  {
    var s := Strip(line);
    var fields := SplitWs(s, 3);
    assert |fields| == 4;
    SplitWsLength(s, 3);
    WordsOfStrip(line);
    SplitWsAgreesWithWords(s, 3, 0);
    SplitWsAgreesWithWords(s, 3, 1);
    SplitWsAgreesWithWords(s, 3, 2);
  }

  /** Every entry the parser produces is well formed. */
  lemma ParsedEntryWellFormed(line: string)
    requires ParseLine(line).Ok?
    ensures WellFormed(ParseLine(line).value)
  {
    var s := Strip(line);
    var fields := SplitWs(s, 3);
    assert |fields| == 4;
    ParseLineFields(line);
    WordsAreWords(line, 0);
    WordsAreWords(line, 1);
    WordsAreWords(line, 2);
    SplitWsLastIsSuffix(s, 3);
    var p := fields[3];
    StripEnds(line);
    assert p[|p| - 1] == s[|s| - 1];
  }

  /** Parsing recovers every field from any line laid out as four fields
      separated by whitespace runs, whatever the surrounding whitespace;
      the path keeps its inner whitespace. */
  lemma ParseLayout(lead: string, e: Entry, sep1: string, sep2: string, sep3: string, trail: string)
    requires WellFormed(e)
    requires AllSpace(lead) && AllSpace(trail)
    requires sep1 != [] && AllSpace(sep1) && sep2 != [] && AllSpace(sep2) && sep3 != [] && AllSpace(sep3)
    ensures ParseLine(lead + Layout(e, sep1, sep2, sep3) + trail) == Ok(e)
  {
    var core := Layout(e, sep1, sep2, sep3);
    CoreEnds(e, sep1, sep2, sep3);
    StripSurrounded(lead, core, trail);
    SplitFour(e.mode, sep1, e.kind, sep2, e.hash, sep3, e.path);
  }

  lemma CoreEnds(e: Entry, sep1: string, sep2: string, sep3: string)
    requires WellFormed(e)
    ensures var core := Layout(e, sep1, sep2, sep3);
            core != [] && !IsSpace(core[0]) && !IsSpace(core[|core| - 1])
  {
    var core := Layout(e, sep1, sep2, sep3);
    assert core[0] == e.mode[0];
    assert core[|core| - 1] == e.path[|e.path| - 1];
  }

  /** Parsing the line git prints for a well-formed entry gives the entry back. */
  lemma ParseFormat(e: Entry)
    requires WellFormed(e)
    ensures ParseLine(FormatLine(e)) == Ok(e)
  {
    ParseLayout([], e, " ", " ", "\t", []);
    assert [] + FormatLine(e) + [] == FormatLine(e);
  }

  /** Entry `k` of the parsed listing is the parse of line `k`. */
  lemma {:induction false} ParseAllAt(lines: seq<string>, k: nat)
    requires k < |lines|
    ensures ParseAll(lines)[k] == ParseLine(lines[k])
    decreases |lines|
  {
    if k < |lines| - 1 {
      var init := lines[..|lines| - 1];
      ParseAllAt(init, k);
      assert init[k] == lines[k];
    }
  }

  /** Parsing a prefix of the lines gives the same prefix of entries. */
  lemma {:induction false} ParseAllPrefix(lines: seq<string>, n: nat)
    requires n <= |lines|
    ensures ParseAll(lines[..n]) == ParseAll(lines)[..n]
    decreases |lines|
  {
    if n < |lines| {
      var init := lines[..|lines| - 1];
      assert init[..n] == lines[..n];
      ParseAllPrefix(init, n);
    } else {
      assert lines[..n] == lines;
    }
  }
}
