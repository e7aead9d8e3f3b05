/**
 * The token file reader (`load_tokens`) and the start-up check that the two
 * authentication tokens are not still the placeholder. Reading the file is
 * left to the caller: the reader is given the file's lines.
 */
module Tokens {
  import opened Optional
  import opened Text

  /** One `KEY = "value"` assignment of the token file. */
  datatype Entry = Entry(key: string, value: string)

  const Quote: set<char> := {'"'}

  /**
   * What one line of the token file contributes: nothing for a blank line,
   * a `#` comment or a line without `=`; otherwise the stripped text before
   * the first `=` as the key and the stripped, unquoted text after it as the
   * value.
   */
  function ParseLine(line: string): (r: Option<Entry>)
  {
    ParseStripped(Strip(line))
  }

  /** `ParseLine` once the line has been stripped. */
  function ParseStripped(t: string): Option<Entry>
  {
    if t == [] || t[0] == '#' then None
    else match IndexOf(t, '=')
      case None => None
      case Some(k) => Some(Assignment(t, k))
  }

  /** `line.split("=", 1)` at the first `=`, index `k`, with key and value cleaned up. */
  function Assignment(t: string, k: nat): Entry
    requires k < |t|
  {
    Entry(Strip(t[..k]), StripChars(Strip(t[k + 1..]), Quote))
  }

  /** The key never contains `=`, and key and value are already clean. */
  lemma ParseLineClean(line: string)
    requires ParseLine(line).Some?
    ensures '=' !in ParseLine(line).value.key
    ensures Strip(ParseLine(line).value.key) == ParseLine(line).value.key
    ensures StripChars(ParseLine(line).value.value, Quote) == ParseLine(line).value.value
  {
    var t := Strip(line);
    var k := IndexOf(t, '=').value;
    AssignmentClean(t, k);
  }

  lemma AssignmentClean(t: string, k: nat)
    requires k < |t| && '=' !in t[..k]
    ensures '=' !in Assignment(t, k).key
    ensures Strip(Assignment(t, k).key) == Assignment(t, k).key
    ensures StripChars(Assignment(t, k).value, Quote) == Assignment(t, k).value
  {
    StripCharsAvoids(t[..k], Whitespace, '=');
    StripCharsIdempotent(t[..k], Whitespace);
    StripCharsIdempotent(Strip(t[k + 1..]), Quote);
  }

  /** A line is ignored exactly when it is blank, a comment, or has no `=`. */
  lemma ParseLineIgnores(line: string)
    ensures ParseLine(line).None? <==>
      Strip(line) == [] || Strip(line)[0] == '#' || '=' !in line
  {
    StripCharsKeeps(line, Whitespace, '=');
  }

  /** The documented line format `KEY = "value"` parses back to its key and value. */
  lemma ParseTemplateLine(key: string, value: string)
    requires key != [] && key[0] != '#' && '=' !in key
    requires key[0] !in Whitespace && key[|key| - 1] !in Whitespace
    requires value == [] || (value[0] != '"' && value[|value| - 1] != '"')
    ensures ParseLine(key + " = \"" + value + "\"") == Some(Entry(key, value))
  {
    var line := key + " = \"" + value + "\"";
    var left := key + " ";
    var right := " \"" + value + "\"";
    assert line == left + ['='] + right;
    assert line[0] == key[0] && line[|line| - 1] == '"';
    StripCharsUnchanged(line, Whitespace);
    IndexOfAfter(left, '=', right);
    TemplateAssignment(key, value, line);
  }

  lemma TemplateAssignment(key: string, value: string, line: string)
    requires key != [] && key[0] !in Whitespace && key[|key| - 1] !in Whitespace
    requires value == [] || (value[0] != '"' && value[|value| - 1] != '"')
    requires line == key + " = \"" + value + "\""
    ensures Assignment(line, |key| + 1) == Entry(key, value)
  {
    var quoted := "\"" + value + "\"";
    assert line == key + " " + "=" + " " + quoted;
    assert line[..|key| + 1] == [] + key + " ";
    assert line[|key| + 2..] == " " + quoted + [];
    StripCharsPadding([], key, " ", Whitespace);
    QuotedValue(value, quoted);
  }

  lemma QuotedValue(value: string, quoted: string)
    requires value == [] || (value[0] != '"' && value[|value| - 1] != '"')
    requires quoted == "\"" + value + "\""
    ensures Strip(" " + quoted + []) == quoted
    ensures StripChars(quoted, Quote) == value
  {
    StripCharsPadding(" ", quoted, [], Whitespace);
    StripCharsPadding("\"", value, "\"", Quote);
  }

  /** The dictionary built from parsed lines: later assignments overwrite earlier ones. */
  function Collect(entries: seq<Option<Entry>>): map<string, string>
  {
    if entries == [] then map[]
    else
      var m := Collect(entries[..|entries| - 1]);
      match entries[|entries| - 1]
      case None => m
      case Some(e) => m[e.key := e.value]
  }

  /** Every line of the file, parsed. */
  function ParseLines(lines: seq<string>): (entries: seq<Option<Entry>>)
    ensures |entries| == |lines|
    ensures forall j :: 0 <= j < |lines| ==> entries[j] == ParseLine(lines[j])
  {
    seq(|lines|, j requires 0 <= j < |lines| => ParseLine(lines[j]))
  }

  /** The dictionary `load_tokens` returns for a file with these lines. */
  function TokensOf(lines: seq<string>): map<string, string>
  {
    Collect(ParseLines(lines))
  }

  /** `line` assigns a value to `key`. */
  predicate Defines(line: string, key: string)
  {
    ParseLine(line).Some? && ParseLine(line).value.key == key
  }

  lemma CollectSnoc(entries: seq<Option<Entry>>, n: nat)
    requires n < |entries|
    ensures Collect(entries[..n + 1]) ==
      match entries[n]
      case None => Collect(entries[..n])
      case Some(e) => Collect(entries[..n])[e.key := e.value]
  {
    assert entries[..n + 1][..n] == entries[..n];
  }

  /** `load_tokens`: reads the token file line by line into a dictionary. */
  method LoadTokens(lines: seq<string>) returns (tokens: map<string, string>)
    ensures tokens == TokensOf(lines)
  {
    ghost var entries := ParseLines(lines);
    tokens := map[];
    for n := 0 to |lines|
      invariant tokens == Collect(entries[..n])
    {
      CollectSnoc(entries, n);
      match ParseLine(lines[n]) {
        case None =>
        case Some(e) => tokens := tokens[e.key := e.value];
      }
    }
    assert entries[..|lines|] == entries;
  }

  lemma {:induction false} CollectKeys(entries: seq<Option<Entry>>, key: string)
    ensures key in Collect(entries) <==>
      exists j :: 0 <= j < |entries| && entries[j].Some? && entries[j].value.key == key
  {
    if entries != [] {
      var init := entries[..|entries| - 1];
      CollectKeys(init, key);
      if exists j :: 0 <= j < |init| && init[j].Some? && init[j].value.key == key {
        var j :| 0 <= j < |init| && init[j].Some? && init[j].value.key == key;
        assert entries[j] == init[j];
      }
      if exists j :: 0 <= j < |entries| && entries[j].Some? && entries[j].value.key == key {
        var j :| 0 <= j < |entries| && entries[j].Some? && entries[j].value.key == key;
        if j < |init| {
          assert init[j] == entries[j];
        }
      }
    }
  }

  lemma {:induction false} CollectLastWins(entries: seq<Option<Entry>>, j: nat)
    requires j < |entries| && entries[j].Some?
    requires forall k :: j < k < |entries| && entries[k].Some? ==> entries[k].value.key != entries[j].value.key
    ensures entries[j].value.key in Collect(entries)
    ensures Collect(entries)[entries[j].value.key] == entries[j].value.value
  {
    var init := entries[..|entries| - 1];
    if j < |entries| - 1 {
      assert init[j] == entries[j];
      forall k | j < k < |init| && init[k].Some?
        ensures init[k].value.key != init[j].value.key
      {
        assert init[k] == entries[k];
      }
      CollectLastWins(init, j);
    }
  }

  /** A key is present exactly when some line assigns it. */
  lemma TokensKeys(lines: seq<string>, key: string)
    ensures key in TokensOf(lines) <==> exists j :: 0 <= j < |lines| && Defines(lines[j], key)
  {
    var entries := ParseLines(lines);
    CollectKeys(entries, key);
    if exists j :: 0 <= j < |lines| && Defines(lines[j], key) {
      var j :| 0 <= j < |lines| && Defines(lines[j], key);
      assert entries[j] == ParseLine(lines[j]);
    }
  }

  /** A key holds the value of the last line that assigns it. */
  lemma TokensLastWins(lines: seq<string>, j: nat)
    requires j < |lines| && ParseLine(lines[j]).Some?
    requires forall k :: j < k < |lines| ==> !Defines(lines[k], ParseLine(lines[j]).value.key)
    ensures ParseLine(lines[j]).value.key in TokensOf(lines)
    ensures TokensOf(lines)[ParseLine(lines[j]).value.key] == ParseLine(lines[j]).value.value
  {
    var entries := ParseLines(lines);
    forall k | j < k < |entries| && entries[k].Some?
      ensures entries[k].value.key != entries[j].value.key
    {
      assert !Defines(lines[k], ParseLine(lines[j]).value.key);
    }
    CollectLastWins(entries, j);
  }

  const MenzaTokenKey := "MENZA_K8_TOKEN"
  const SessionTokenKey := "SHIBSESSION_TOKEN"
  /** The value the token file template carries until the user fills it in. */
  const Placeholder := "-"

  /** `tokens.get(key, "")`. */
  function TokenOrEmpty(tokens: map<string, string>, key: string): string
  {
    if key in tokens then tokens[key] else ""
  }

  /** The start-up check in `main`: either token still holds the placeholder. */
  predicate TokensNotSet(tokens: map<string, string>)
  {
    TokenOrEmpty(tokens, MenzaTokenKey) == Placeholder ||
    TokenOrEmpty(tokens, SessionTokenKey) == Placeholder
  }

  /** A file whose last `MENZA_K8_TOKEN` line is the template's placeholder stops the start-up. */
  lemma TemplateTokenRejected(lines: seq<string>, j: nat)
    requires j < |lines| && lines[j] == MenzaTokenKey + " = \"" + Placeholder + "\""
    requires forall k :: j < k < |lines| ==> !Defines(lines[k], MenzaTokenKey)
    ensures TokensNotSet(TokensOf(lines))
  {
    ParseTemplateLine(MenzaTokenKey, Placeholder);
    TokensLastWins(lines, j);
  }

  /** A file that assigns neither token passes the check: missing tokens read as "". */
  lemma MissingTokensPass(lines: seq<string>)
    requires forall k :: 0 <= k < |lines| ==> !Defines(lines[k], MenzaTokenKey) && !Defines(lines[k], SessionTokenKey)
    ensures !TokensNotSet(TokensOf(lines))
  {
    TokensKeys(lines, MenzaTokenKey);
    TokensKeys(lines, SessionTokenKey);
  }
}
