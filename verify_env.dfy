/** scripts/verify-env.js: the `.env` parser of `loadEnvFile` (after the
    file is read) and the missing / placeholder classifier `checkEnvVars`. */
module VerifyEnv {
  import opened Wrappers
  import opened Strings
  import opened Seqs

  const FrontendRequired: seq<string> := ["VITE_SUPABASE_URL", "VITE_SUPABASE_ANON_KEY", "VITE_GEMINI_API_KEY"]
  const BackendRequired: seq<string> :=
    ["SUPABASE_URL", "SUPABASE_SERVICE_ROLE_KEY", "DATABASE_URL", "GEMINI_API_KEY", "PORT"]

  datatype Assignment = Assignment(key: string, value: string)

  /** One line of the file: trimmed; skipped when blank or a `#` comment;
      otherwise split at `=`, kept when the text before the first `=` is
      non-empty and there is at least one `=`. The key is that text trimmed,
      the value everything after the first `=` (later `=` included) trimmed. */
  function ParseLine(line: string): Option<Assignment>
  {
    ParseTrimmed(Trim(line))
  }

  function ParseTrimmed(trimmed: string): Option<Assignment>
  {
    if trimmed == [] || StartsWith(trimmed, "#") then None
    else
      var parts := Split(trimmed, '=');
      if parts[0] != [] && |parts| > 1 then Some(Assignment(Trim(parts[0]), Trim(Join(parts[1..], "="))))
      else None
  }

  /** What each line yields, in order. */
  function ParseAll(lines: seq<string>): (r: seq<Option<Assignment>>)
    ensures |r| == |lines|
    ensures forall i :: 0 <= i < |lines| ==> r[i] == ParseLine(lines[i])
  {
    seq(|lines|, i requires 0 <= i < |lines| => ParseLine(lines[i]))
  }

  function Assign(env: map<string, string>, parsed: Option<Assignment>): map<string, string>
  {
    match parsed
      case None => env
      case Some(a) => env[a.key := a.value]
  }

  /** The `vars` object after the parsed lines in order: each assignment sets its key. */
  function EnvOf(parsed: seq<Option<Assignment>>): map<string, string>
  {
    if parsed == [] then map[]
    else Assign(EnvOf(parsed[..|parsed| - 1]), parsed[|parsed| - 1])
  }

  /** The `forEach` of `loadEnvFile`: one pass over the lines, setting
      `vars[key]` for every line that parses. */
  method LoadLines(lines: seq<string>) returns (vars: map<string, string>)
    ensures vars == EnvOf(ParseAll(lines))
  {
    ghost var all := ParseAll(lines);
    vars := map[];
    var i := 0;
    while i < |lines|
      invariant 0 <= i <= |lines| && vars == EnvOf(all[..i])
    {
      var parsed := ParseLine(lines[i]);
      assert all[i] == parsed;
      TakeOneMore(all, i);
      EnvOfSnoc(all[..i], parsed);
      if parsed.Some? {
        vars := vars[parsed.value.key := parsed.value.value];
      }
      assert vars == Assign(EnvOf(all[..i]), parsed);
      i := i + 1;
    }
    assert all[..i] == all;
  }

  /** `loadEnvFile` once the file's text is in hand: the text cut at `\n`. */
  method LoadEnv(content: string) returns (vars: map<string, string>)
    ensures vars == EnvOf(ParseAll(Split(content, '\n')))
  {
    vars := LoadLines(Split(content, '\n'));
  }

  /** Blank lines and comments contribute nothing. */
  lemma CommentsAndBlanksSkipped(line: string)
    requires Trim(line) == [] || StartsWith(Trim(line), "#")
    ensures ParseLine(line) == None
  {
  }

  /** What a line yields, both ways: an assignment exactly when the trimmed
      line is not a comment and has an `=` after at least one character; the
      key is the trimmed text before the first `=`, and the value is the text
      after it trimmed, so any later `=` stay in the value. */
  lemma ParseLineMeaning(line: string)
    ensures var t := Trim(line);
            var k := IndexOfChar(t, '=');
            ParseLine(line).Some? <==> t != [] && t[0] != '#' && 0 < k < |t|
    ensures var t := Trim(line);
            var k := IndexOfChar(t, '=');
            ParseLine(line).Some? ==> ParseLine(line).value == Assignment(Trim(t[..k]), Trim(t[k + 1..]))
  {
    ParseTrimmedMeaning(Trim(line));
  }

  lemma ParseTrimmedMeaning(t: string)
    ensures var k := IndexOfChar(t, '=');
            ParseTrimmed(t).Some? <==> t != [] && t[0] != '#' && 0 < k < |t|
    ensures var k := IndexOfChar(t, '=');
            ParseTrimmed(t).Some? ==> ParseTrimmed(t).value == Assignment(Trim(t[..k]), Trim(t[k + 1..]))
  {
    if t != [] {
      assert t[..1] == [t[0]];
      assert StartsWith(t, "#") <==> t[0] == '#';
    }
    if t != [] && t[0] != '#' {
      var k := IndexOfChar(t, '=');
      var parts := Split(t, '=');
      SplitHead(t, '=');
      assert parts[0] == t[..k];
      if '=' in t {
        SplitTailJoin(t, '=');
        assert Join(parts[1..], "=") == t[k + 1..];
      }
    }
  }

  /** A parsed key is never empty and never holds `=`. */
  lemma KeyIsNonEmpty(line: string)
    requires ParseLine(line).Some?
    ensures ParseLine(line).value.key != [] && '=' !in ParseLine(line).value.key
  {
    var t := Trim(line);
    var k := IndexOfChar(t, '=');
    ParseLineMeaning(line);
    TrimKeepsFirst(t[..k]);
    var key := Trim(t[..k]);
    assert key == TrimEnd(TrimStart(t[..k]));
    assert forall c :: c in key ==> c in t[..k];
  }

  /** A key as a `.env` file can hold it: non-empty, no `=`, not starting a
      comment, and no surrounding whitespace. */
  predicate WellFormedKey(key: string)
  {
    key != [] && '=' !in key && key[0] != '#' && !IsJsSpace(key[0]) && !IsJsSpace(key[|key| - 1])
  }

  predicate WellFormedValue(value: string)
  {
    value == [] || (!IsJsSpace(value[0]) && !IsJsSpace(value[|value| - 1]))
  }

  /** Round trip: a line written as `key=value` parses back to exactly that
      key and value, whatever `=` the value holds, and `key=` to the empty value. */
  lemma ParseFormatted(key: string, value: string)
    requires WellFormedKey(key) && WellFormedValue(value)
    ensures ParseLine(key + "=" + value) == Some(Assignment(key, value))
  {
    var t := key + "=" + value;
    assert t[0] == key[0];
    assert t[|t| - 1] == if value == [] then '=' else value[|value| - 1];
    TrimOfTrimmed(t);
    ParseTrimmedFormatted(key, value);
  }

  lemma ParseTrimmedFormatted(key: string, value: string)
    requires WellFormedKey(key) && WellFormedValue(value)
    ensures ParseTrimmed(key + "=" + value) == Some(Assignment(key, value))
  {
    var t := key + "=" + value;
    var k := IndexOfChar(t, '=');
    assert k == |key| by {
      assert t[|key|] == '=';
      assert forall j :: 0 <= j < |key| ==> t[j] == key[j];
    }
    assert t[0] == key[0] && t[..k] == key && t[k + 1..] == value;
    TrimOfTrimmed(key);
    TrimOfTrimmed(value);
    ParseTrimmedMeaning(t);
  }

  lemma EnvOfSnoc(parsed: seq<Option<Assignment>>, p: Option<Assignment>)
    ensures EnvOf(parsed + [p]) == Assign(EnvOf(parsed), p)
  {
    var all := parsed + [p];
    assert all[..|all| - 1] == parsed && all[|all| - 1] == p;
  }

  /** A later line for a key overrides every earlier one and leaves the other
      keys as they were; a line that does not parse changes nothing. */
  lemma LaterOverrides(parsed: seq<Option<Assignment>>, a: Assignment)
    ensures EnvOf(parsed + [Some(a)]) == EnvOf(parsed)[a.key := a.value]
    ensures EnvOf(parsed + [None]) == EnvOf(parsed)
  {
    EnvOfSnoc(parsed, Some(a));
    EnvOfSnoc(parsed, None);
  }

  predicate SetsKey(p: Option<Assignment>, key: string)
  {
    p.Some? && p.value.key == key
  }

  /** Index of the last line that sets `key`, or -1. */
  function LastSetting(parsed: seq<Option<Assignment>>, key: string): (i: int)
    ensures -1 <= i < |parsed|
    ensures i >= 0 ==> SetsKey(parsed[i], key)
    ensures forall j :: i < j < |parsed| ==> !SetsKey(parsed[j], key)
  {
    if parsed == [] then -1
    else if SetsKey(parsed[|parsed| - 1], key) then |parsed| - 1
    else LastSetting(parsed[..|parsed| - 1], key)
  }

  /** The last assignment wins, both ways: a key is in the result exactly
      when some line sets it, and its value is the one the last such line gives. */
  lemma {:induction false} LastAssignmentWins(parsed: seq<Option<Assignment>>, key: string)
    ensures key in EnvOf(parsed) <==> LastSetting(parsed, key) >= 0
    ensures key in EnvOf(parsed) ==> EnvOf(parsed)[key] == parsed[LastSetting(parsed, key)].value.value
  {
    if parsed != [] {
      var n := |parsed|;
      var init := parsed[..n - 1];
      var p := parsed[n - 1];
      assert parsed == init + [p];
      EnvOfSnoc(init, p);
      LastAssignmentWins(init, key);
      if !SetsKey(p, key) {
        assert LastSetting(parsed, key) == LastSetting(init, key);
        if LastSetting(init, key) >= 0 {
          assert parsed[LastSetting(init, key)] == init[LastSetting(init, key)];
        }
      }
    }
  }

  /** JavaScript's `!value` on a looked-up variable: absent or empty. */
  predicate IsMissing(env: map<string, string>, name: string)
  {
    name !in env || env[name] == []
  }

  predicate LooksLikePlaceholder(value: string)
  {
    Contains(value, "your_") || Contains(value, "your-project") || value == "development" || value == "production"
  }

  /** Reported as a placeholder: set, placeholder-looking, and not one of the
      two variables exempted. */
  predicate IsPlaceholder(env: map<string, string>, name: string)
  {
    !IsMissing(env, name) && LooksLikePlaceholder(env[name]) && name != "NODE_ENV" && name != "PORT"
  }

  function MissingOf(env: map<string, string>, required: seq<string>): seq<string>
  {
    Filter(required, name => IsMissing(env, name))
  }

  function PlaceholdersOf(env: map<string, string>, required: seq<string>): seq<string>
  {
    Filter(required, name => IsPlaceholder(env, name))
  }

  datatype Report = Report(missing: seq<string>, placeholder: seq<string>)

  /** `checkEnvVars`: one pass over the required names, pushing each onto
      `missing` or `placeholder` or neither. */
  method CheckEnvVars(env: map<string, string>, required: seq<string>) returns (r: Report)
    ensures r.missing == MissingOf(env, required)
    ensures r.placeholder == PlaceholdersOf(env, required)
  {
    var missing: seq<string> := [];
    var placeholder: seq<string> := [];
    var i := 0;
    while i < |required|
      invariant 0 <= i <= |required|
      invariant missing == MissingOf(env, required[..i])
      invariant placeholder == PlaceholdersOf(env, required[..i])
    {
      var name := required[i];
      assert required[..i + 1] == required[..i] + [name];
      FilterSnoc(required[..i], n => IsMissing(env, n), name);
      FilterSnoc(required[..i], n => IsPlaceholder(env, n), name);
      if name !in env || env[name] == [] {
        missing := missing + [name];
      } else if LooksLikePlaceholder(env[name]) {
        if name != "NODE_ENV" && name != "PORT" {
          placeholder := placeholder + [name];
        }
      }
      i := i + 1;
    }
    assert required[..i] == required;
    return Report(missing, placeholder);
  }

  /** Both lists, both ways: a name is missing exactly when it is required and
      absent or empty, and a placeholder exactly when it is required, set,
      placeholder-looking and not `NODE_ENV` or `PORT`; no name is in both. */
  lemma Classification(env: map<string, string>, required: seq<string>, name: string)
    ensures name in MissingOf(env, required) <==> name in required && IsMissing(env, name)
    ensures name in PlaceholdersOf(env, required)
            <==> name in required && name in env && env[name] != []
                 && LooksLikePlaceholder(env[name]) && name != "NODE_ENV" && name != "PORT"
    ensures !(name in MissingOf(env, required) && name in PlaceholdersOf(env, required))
  {
    FilterMembership(required, n => IsMissing(env, n), name);
    FilterMembership(required, n => IsPlaceholder(env, n), name);
  }

  /** Both lists list the names in the order they are required. */
  lemma ReportKeepsOrder(env: map<string, string>, required: seq<string>)
    ensures Subsequence(MissingOf(env, required), required)
    ensures Subsequence(PlaceholdersOf(env, required), required)
  {
    FilterIsSubsequence(required, n => IsMissing(env, n));
    FilterIsSubsequence(required, n => IsPlaceholder(env, n));
  }

  /** A `KEY=` line leaves `KEY` set but empty, so a required `KEY` is reported missing. */
  lemma EmptyAssignmentIsMissing(lines: seq<string>, key: string, required: seq<string>)
    requires WellFormedKey(key) && key in required
    ensures key in MissingOf(EnvOf(ParseAll(lines + [key + "="])), required)
  {
    ParseFormatted(key, "");
    assert key + "=" + "" == key + "=";
    assert ParseAll(lines + [key + "="]) == ParseAll(lines) + [Some(Assignment(key, ""))];
    LaterOverrides(ParseAll(lines), Assignment(key, ""));
    Classification(EnvOf(ParseAll(lines + [key + "="])), required, key);
  }

  /** `PORT=development` in the backend file is neither missing nor a placeholder. */
  lemma PortIsExempt(env: map<string, string>)
    requires "PORT" in env && env["PORT"] == "development"
    ensures "PORT" !in MissingOf(env, BackendRequired) && "PORT" !in PlaceholdersOf(env, BackendRequired)
  {
    Classification(env, BackendRequired, "PORT");
  }
}
