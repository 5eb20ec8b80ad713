/** backend/src/config/env.ts: the backend's configuration after schema
    validation. Boolean flags, placeholder-secret detection, the allowed
    origin list, the service-key fallback, and the production check that
    refuses to start when a required setting is missing or a placeholder. */
module EnvConfig {
  import opened Wrappers
  import opened Strings
  import opened Seqs

  datatype NodeEnv = Development | Test | Production

  /** The variables as the schema hands them over; `None` is an unset
      variable. Defaults (`development`, port 3001, the local frontend URL)
      are already applied. */
  datatype Parsed = Parsed(
    nodeEnv: NodeEnv,
    port: nat,
    frontendUrl: string,
    allowedOrigins: Option<string>,
    logLevel: Option<string>,
    trustProxy: Option<string>,
    databaseUrl: Option<string>,
    geminiApiKey: Option<string>,
    supabaseUrl: Option<string>,
    supabaseServiceKey: Option<string>,
    supabaseServiceRoleKey: Option<string>)

  /** The exported configuration object. */
  datatype AppEnv = AppEnv(
    nodeEnv: NodeEnv,
    port: nat,
    frontendUrl: string,
    allowedOrigins: seq<string>,
    trustProxy: bool,
    logLevel: Option<string>,
    databaseUrl: string,
    geminiApiKey: string,
    supabaseUrl: string,
    supabaseServiceKey: string)

  /** A JavaScript truthy string: set and not empty. */
  predicate Present(v: Option<string>)
  {
    v.Some? && v.value != []
  }

  /** `v || ''`. */
  function Text(v: Option<string>): (r: string)
    ensures Present(v) <==> r != []
  {
    if v.Some? then v.value else []
  }

  const TruthyWords: seq<string> := ["1", "true", "yes", "on"]

  /** `toBool`: an unset or empty value gives the fallback; any other value is
      true exactly when its lower-case form is one of the truthy words. */
  function ToBool(value: Option<string>, fallback: bool): (r: bool)
    ensures !Present(value) ==> r == fallback
    ensures Present(value) ==> (r <==> ToLower(value.value) in TruthyWords)
  {
    if !Present(value) then fallback else ToLower(value.value) in TruthyWords
  }

  /** Upper-casing first does not change what a flag means. */
  lemma ToBoolIgnoresCase(v: string, fallback: bool)
    ensures ToBool(Some(ToUpper(v)), fallback) == ToBool(Some(v), fallback)
  {
    assert ToLower(ToUpper(v)) == ToLower(v) by {
      forall i | 0 <= i < |v|
        ensures LowerChar(UpperChar(v[i])) == LowerChar(v[i])
      {
      }
    }
  }

  /** A set, non-empty flag never falls back. */
  lemma ToBoolIgnoresFallback(v: string)
    requires v != []
    ensures ToBool(Some(v), true) == ToBool(Some(v), false)
  {
    assert Present(Some(v));
  }

  const PlaceholderMarkers: seq<string> := ["your_", "example", "changeme", "replace-me", "placeholder"]

  /** `isPlaceholderSecret`: the value contains one of the markers, letters
      compared without regard to case. A case-insensitive regular expression
      without the `u` flag compares characters by their upper-case forms and
      never matches a non-ASCII character against an ASCII one, so on these
      ASCII markers it is substring search on the ASCII upper-case forms. */
  predicate IsPlaceholderSecret(value: string)
  {
    exists i :: 0 <= i < |PlaceholderMarkers| && Contains(ToUpper(value), ToUpper(PlaceholderMarkers[i]))
  }

  /** Any text holding a marker, in any casing, is a placeholder. */
  lemma MarkerMakesPlaceholder(before: string, marker: string, after: string, i: nat)
    requires i < |PlaceholderMarkers|
    requires ToUpper(marker) == ToUpper(PlaceholderMarkers[i])
    ensures IsPlaceholderSecret(before + marker + after)
  {
    var m := ToUpper(marker);
    assert Contains(m, m) by {
      assert m[0..|m|] == m;
      assert OccursAt(m, m, 0);
    }
    ContainsInside(ToUpper(before), m, ToUpper(after), m);
    UpperConcat(before, marker);
    UpperConcat(before + marker, after);
  }

  /** A value made only of digits is never a placeholder: every marker
      begins with a letter. */
  lemma DigitsAreNotPlaceholders(value: string)
    requires forall k :: 0 <= k < |value| ==> '0' <= value[k] <= '9'
    ensures !IsPlaceholderSecret(value)
  {
    var u := ToUpper(value);
    forall i | 0 <= i < |PlaceholderMarkers|
      ensures !Contains(u, ToUpper(PlaceholderMarkers[i]))
    {
      var m := ToUpper(PlaceholderMarkers[i]);
      assert m != [] && 'A' <= m[0] <= 'Z';
      forall j | 0 <= j <= |u| - |m|
        ensures !OccursAt(u, m, j)
      {
        assert u[j] != m[0];
        assert u[j..j + |m|][0] == u[j];
      }
    }
  }

  /** The `allowedOrigins` pipeline: `ALLOWED_ORIGINS` split at commas with
      each piece trimmed, or else the frontend URL alone; empty entries are
      dropped either way. */
  function AllowedOrigins(allowed: Option<string>, frontendUrl: string): (r: seq<string>)
    ensures forall k :: 0 <= k < |r| ==> r[k] != []
    ensures !Present(allowed) ==> r == (if frontendUrl == [] then [] else [frontendUrl])
  {
    var candidates := if Present(allowed) then Map(Split(allowed.value, ','), Trim) else [frontendUrl];
    Filter(candidates, (o: string) => o != [])
  }

  /** An origin as a list entry: non-empty, no comma, no whitespace at either end. */
  predicate WellFormedOrigin(o: string)
  {
    o != [] && ',' !in o && !IsJsSpace(o[0]) && !IsJsSpace(o[|o| - 1])
  }

  /** Every entry from the variable is trimmed and holds no comma. */
  lemma OriginsAreWellFormed(allowed: string, frontendUrl: string)
    requires allowed != []
    ensures forall k :: 0 <= k < |AllowedOrigins(Some(allowed), frontendUrl)| ==>
              WellFormedOrigin(AllowedOrigins(Some(allowed), frontendUrl)[k])
  {
    var pieces := Split(allowed, ',');
    var trimmed := Map(pieces, Trim);
    var r := AllowedOrigins(Some(allowed), frontendUrl);
    assert r == Filter(trimmed, (o: string) => o != []);
    forall k | 0 <= k < |r|
      ensures WellFormedOrigin(r[k])
    {
      FilterMembership(trimmed, (o: string) => o != [], r[k]);
      var j :| 0 <= j < |trimmed| && trimmed[j] == r[k];
      TrimIsInside(pieces[j]);
      assert ',' !in pieces[j];
    }
  }

  /** A comma-joined list of well-formed origins reads back as that list. */
  lemma OriginsRoundTrip(origins: seq<string>, frontendUrl: string)
    requires origins != []
    requires forall k :: 0 <= k < |origins| ==> WellFormedOrigin(origins[k])
    ensures AllowedOrigins(Some(Join(origins, ",")), frontendUrl) == origins
  {
    var text := Join(origins, ",");
    JoinNonEmpty(origins, ",");
    TrimmedPieces(origins);
    assert Map(Split(text, ','), Trim) == origins;
    FilterAll(origins, (o: string) => o != []);
  }

  /** Cutting a comma-joined list of well-formed origins and trimming the
      pieces gives the list back. */
  lemma TrimmedPieces(origins: seq<string>)
    requires origins != []
    requires forall k :: 0 <= k < |origins| ==> WellFormedOrigin(origins[k])
    ensures Map(Split(Join(origins, ","), ','), Trim) == origins
  {
    assert "," == [','];
    forall k | 0 <= k < |origins|
      ensures ',' !in origins[k]
    {
    }
    JoinSplit(origins, ',');
    TrimAll(origins);
  }

  /** Trimming a list of already trimmed texts changes nothing. */
  lemma TrimAll(xs: seq<string>)
    requires forall k :: 0 <= k < |xs| ==> xs[k] != [] && !IsJsSpace(xs[k][0]) && !IsJsSpace(xs[k][|xs[k]| - 1])
    ensures Map(xs, Trim) == xs
  {
    forall k | 0 <= k < |xs|
      ensures Trim(xs[k]) == xs[k]
    {
      TrimOfTrimmed(xs[k]);
    }
  }

  /** A join whose first piece is not empty is not empty. */
  lemma JoinNonEmpty(parts: seq<string>, sep: string)
    requires parts != [] && parts[0] != []
    ensures Join(parts, sep) != []
  {
  }

  /** `SUPABASE_SERVICE_KEY || SUPABASE_SERVICE_ROLE_KEY || ''`. */
  function ServiceKey(serviceKey: Option<string>, roleKey: Option<string>): (r: string)
    ensures Present(serviceKey) ==> r == serviceKey.value
    ensures !Present(serviceKey) ==> r == Text(roleKey)
    ensures r == [] <==> !Present(serviceKey) && !Present(roleKey)
  {
    if Present(serviceKey) then serviceKey.value else Text(roleKey)
  }

  /** The production requirements, in the order they are checked. */
  const RequiredNames: seq<string> :=
    ["DATABASE_URL", "GEMINI_API_KEY", "SUPABASE_URL", "SUPABASE_SERVICE_KEY", "ALLOWED_ORIGINS"]

  /** A secret fails when it is unset, empty or a placeholder. */
  predicate SecretFails(v: Option<string>)
  {
    !Present(v) || IsPlaceholderSecret(v.value)
  }

  /** The production check for one requirement. The Supabase URL is only
      checked for presence, not for placeholder text. */
  predicate Fails(p: Parsed, name: string)
  {
    if name == "DATABASE_URL" then SecretFails(p.databaseUrl)
    else if name == "GEMINI_API_KEY" then SecretFails(p.geminiApiKey)
    else if name == "SUPABASE_URL" then !Present(p.supabaseUrl)
    else if name == "SUPABASE_SERVICE_KEY" then
      var key := ServiceKey(p.supabaseServiceKey, p.supabaseServiceRoleKey);
      key == [] || IsPlaceholderSecret(key)
    else name == "ALLOWED_ORIGINS" && AllowedOrigins(p.allowedOrigins, p.frontendUrl) == []
  }

  /** One guarded `push`: the name when its check fails, nothing otherwise. */
  function Flag(failed: bool, name: string): seq<string>
  {
    if failed then [name] else []
  }

  /** The requirements that fail, in the order they are checked. */
  function Failures(p: Parsed): seq<string>
  {
    Flag(Fails(p, "DATABASE_URL"), "DATABASE_URL")
    + Flag(Fails(p, "GEMINI_API_KEY"), "GEMINI_API_KEY")
    + Flag(Fails(p, "SUPABASE_URL"), "SUPABASE_URL")
    + Flag(Fails(p, "SUPABASE_SERVICE_KEY"), "SUPABASE_SERVICE_KEY")
    + Flag(Fails(p, "ALLOWED_ORIGINS"), "ALLOWED_ORIGINS")
  }

  /** `missingVars`: the five guarded `push` calls. */
  method ProductionFailures(p: Parsed) returns (missingVars: seq<string>)
    ensures missingVars == Failures(p)
  {
    var supabaseServiceKey := ServiceKey(p.supabaseServiceKey, p.supabaseServiceRoleKey);
    var allowedOrigins := AllowedOrigins(p.allowedOrigins, p.frontendUrl);
    missingVars := [];
    if !Present(p.databaseUrl) || IsPlaceholderSecret(p.databaseUrl.value) {
      missingVars := missingVars + ["DATABASE_URL"];
    }
    ghost var checked := Flag(Fails(p, "DATABASE_URL"), "DATABASE_URL");
    assert missingVars == checked;
    if !Present(p.geminiApiKey) || IsPlaceholderSecret(p.geminiApiKey.value) {
      missingVars := missingVars + ["GEMINI_API_KEY"];
    }
    checked := checked + Flag(Fails(p, "GEMINI_API_KEY"), "GEMINI_API_KEY");
    assert missingVars == checked;
    if !Present(p.supabaseUrl) {
      missingVars := missingVars + ["SUPABASE_URL"];
    }
    checked := checked + Flag(Fails(p, "SUPABASE_URL"), "SUPABASE_URL");
    assert missingVars == checked;
    if supabaseServiceKey == [] || IsPlaceholderSecret(supabaseServiceKey) {
      missingVars := missingVars + ["SUPABASE_SERVICE_KEY"];
    }
    checked := checked + Flag(Fails(p, "SUPABASE_SERVICE_KEY"), "SUPABASE_SERVICE_KEY");
    assert missingVars == checked;
    if |allowedOrigins| == 0 {
      missingVars := missingVars + ["ALLOWED_ORIGINS"];
    }
  }

  /** A requirement is reported exactly when it is one of the five and its
      check fails, and no more than five names are ever reported. */
  lemma FailuresMeaning(p: Parsed, name: string)
    ensures name in Failures(p) <==> name in RequiredNames && Fails(p, name)
    ensures |Failures(p)| <= |RequiredNames|
  {
    var a := Flag(Fails(p, "DATABASE_URL"), "DATABASE_URL");
    var b := Flag(Fails(p, "GEMINI_API_KEY"), "GEMINI_API_KEY");
    var c := Flag(Fails(p, "SUPABASE_URL"), "SUPABASE_URL");
    var d := Flag(Fails(p, "SUPABASE_SERVICE_KEY"), "SUPABASE_SERVICE_KEY");
    var e := Flag(Fails(p, "ALLOWED_ORIGINS"), "ALLOWED_ORIGINS");
    assert name in a + b + c + d + e <==> name in a || name in b || name in c || name in d || name in e;
  }

  /** A placeholder-looking Supabase URL passes the check; only its absence fails. */
  lemma SupabaseUrlOnlyNeedsPresence(p: Parsed)
    requires Present(p.supabaseUrl)
    ensures "SUPABASE_URL" !in Failures(p)
  {
    FailuresMeaning(p, "SUPABASE_URL");
  }

  const MissingPrefix: string := "Missing or invalid required production environment variables: "

  /** The error text: the prefix, then the failures joined by `, `. */
  function FailureMessage(missingVars: seq<string>): string
  {
    MissingPrefix + Join(missingVars, ", ")
  }

  /** The error text names every failure. */
  lemma MessageNamesEveryFailure(missingVars: seq<string>, i: nat)
    requires i < |missingVars|
    ensures Contains(FailureMessage(missingVars), missingVars[i])
  {
    JoinContainsPart(missingVars, ", ", i);
    ContainsInside(MissingPrefix, Join(missingVars, ", "), [], missingVars[i]);
    assert MissingPrefix + Join(missingVars, ", ") + [] == FailureMessage(missingVars);
  }

  /** The exported object; `trustProxy` defaults to on in production. */
  function AppEnvOf(p: Parsed): (r: AppEnv)
    ensures r.trustProxy == ToBool(p.trustProxy, p.nodeEnv == Production)
    ensures !Present(p.trustProxy) ==> (r.trustProxy <==> p.nodeEnv == Production)
    ensures r.supabaseServiceKey == ServiceKey(p.supabaseServiceKey, p.supabaseServiceRoleKey)
    ensures r.allowedOrigins == AllowedOrigins(p.allowedOrigins, p.frontendUrl)
  {
    AppEnv(p.nodeEnv, p.port, p.frontendUrl, AllowedOrigins(p.allowedOrigins, p.frontendUrl),
           ToBool(p.trustProxy, p.nodeEnv == Production), p.logLevel,
           Text(p.databaseUrl), Text(p.geminiApiKey), Text(p.supabaseUrl),
           ServiceKey(p.supabaseServiceKey, p.supabaseServiceRoleKey))
  }

  /** Loading the module: compute the derived values, and in production
      throw when any requirement fails. Outside production nothing is checked. */
  method LoadEnv(p: Parsed) returns (r: Result<AppEnv, string>)
    ensures r.Err? <==> p.nodeEnv == Production && Failures(p) != []
    ensures r.Err? ==> r.error == FailureMessage(Failures(p))
    ensures r.Ok? ==> r.value == AppEnvOf(p)
  {
    if p.nodeEnv == Production {
      var missingVars := ProductionFailures(p);
      if |missingVars| > 0 {
        return Err(FailureMessage(missingVars));
      }
    }
    r := Ok(AppEnvOf(p));
  }
}
