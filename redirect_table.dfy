/** The table of redirect records and the `findByFrom` lookup over it. The
    table is a map keyed by the columns of the unique index "From"
    (FromBase, FromQuerystring), so the map's keying is that index. A NULL
    querystring is written "" throughout. */
module RedirectTable {
  import opened PhpStrings
  import opened RedirectedURLs

  datatype Option<T> = None | Some(value: T)

  /** The columns of the unique index "From". */
  datatype Key = Key(fromBase: string, fromQuerystring: string)

  /** One stored redirect record. */
  datatype Row = Row(fromBase: string, fromQuerystring: string, to: string)

  type Table = map<Key, Row>

  /** Every row is filed under its own index columns. The map then holds at
      most one row per (FromBase, FromQuerystring), the empty querystring
      included. */
  ghost predicate WellKeyed(t: Table)
  {
    forall k :: k in t ==> Key(t[k].fromBase, t[k].fromQuerystring) == k
  }

  /** How `findByFrom` reads its argument: a leading `/` added, the trailing
      run of `?` stripped, then a cut at the first `?`. Unlike `setFrom` it
      does not strip a trailing `/` from the base. With no `?` the querystring
      is `null`, written "". */
  function ParseLookup(from: string): (parsed: (string, string))
    ensures |parsed.0| > 0 && parsed.0[0] == '/'
    ensures '?' !in parsed.0
    ensures parsed.1 == [] || parsed.1[|parsed.1| - 1] != '?'
  {
    var slashed := WithLeadingSlash(from);
    var trimmed := RTrim(slashed, '?');
    assert trimmed[0] == slashed[0];
    if '?' in trimmed then ExplodeFirst(trimmed, '?') else (trimmed, "")
  }

  /** The WHERE clause `findByFrom` sends: FromBase equal to the parsed base,
      and FromQuerystring equal to the parsed querystring when that is truthy,
      or NULL when it is not. */
  predicate Matches(row: Row, base: string, querystring: string)
  {
    row.fromBase == base &&
    if IsTruthy(querystring) then row.fromQuerystring == querystring else row.fromQuerystring == ""
  }

  /** The index entry the WHERE clause of `findByFrom(from)` selects. */
  function LookupKey(from: string): (k: Key)
    ensures forall row: Row :: Matches(row, ParseLookup(from).0, ParseLookup(from).1) <==>
      Key(row.fromBase, row.fromQuerystring) == k
  {
    var (base, querystring) := ParseLookup(from);
    if IsTruthy(querystring) then Key(base, querystring) else Key(base, "")
  }

  /** `findByFrom`: the record stored under the index entry the parsed
      argument selects, if any. On a well-keyed table this is an exact-match
      query: what it returns satisfies the WHERE clause, and every row that
      satisfies the WHERE clause is what it returns, so there is no prefix
      match and no fallback to another querystring. */
  function FindByFrom(from: string, t: Table): (found: Option<Row>)
    ensures found.Some? ==> found.value in t.Values
    ensures WellKeyed(t) && found.Some? ==>
      Matches(found.value, ParseLookup(from).0, ParseLookup(from).1)
    ensures WellKeyed(t) ==>
      forall row :: row in t.Values && Matches(row, ParseLookup(from).0, ParseLookup(from).1) ==>
        found == Some(row)
  {
    var key := LookupKey(from);
    if key in t then
      assert forall row :: row in t.Values && Matches(row, ParseLookup(from).0, ParseLookup(from).1) ==>
        Key(row.fromBase, row.fromQuerystring) == key;
      Some(t[key])
    else
      None
  }

  /** Querystring discrimination: a lookup with a truthy querystring returns
      only a row with a truthy querystring, and a lookup with none returns
      only a row with none. */
  lemma {:induction false} FindByFromQuerystringDiscrimination(from: string, t: Table)
    requires WellKeyed(t)
    ensures FindByFrom(from, t).Some? ==>
      (IsTruthy(ParseLookup(from).1) <==> IsTruthy(FindByFrom(from, t).value.fromQuerystring))
    ensures FindByFrom(from, t).Some? && !IsTruthy(ParseLookup(from).1) ==>
      FindByFrom(from, t).value.fromQuerystring == ""
  {
  }

  /** The unique index: two rows of a well-keyed table with the same
      (FromBase, FromQuerystring) are the same row. */
  lemma UniqueIndex(t: Table, a: Row, b: Row)
    requires WellKeyed(t)
    requires a in t.Values && b in t.Values
    requires a.fromBase == b.fromBase && a.fromQuerystring == b.fromQuerystring
    ensures a == b
  {
    var ka :| ka in t && t[ka] == a;
    var kb :| kb in t && t[kb] == b;
    assert ka == kb;
  }

  /** A leading `/` is added only when missing, so "x" and "/x" parse alike. */
  lemma ParseLookupLeadingSlash(x: string)
    requires |x| == 0 || x[0] != '/'
    ensures ParseLookup(x) == ParseLookup("/" + x)
  {
  }

  /** A trailing run of `?` does not change what is looked up. */
  lemma ParseLookupIgnoresTrailingQuestionMarks(s: string, run: string)
    requires AllChar(run, '?')
    ensures ParseLookup(s + run) == ParseLookup(s)
  {
    if run != [] {
      assert WithLeadingSlash(s + run) == WithLeadingSlash(s) + run by {
        if s == [] {
          assert s + run == run && run[0] == '?';
        } else {
          assert (s + run)[0] == s[0];
        }
      }
    } else {
      assert s + run == s;
    }
    RTrimAbsorbsRun(WithLeadingSlash(s), run, '?');
  }

  /** Without a `?` the parsed base is the argument with its leading slash, its
      trailing `/` kept. */
  lemma ParseLookupKeepsTrailingSlash(s: string)
    requires '?' !in s
    ensures ParseLookup(s) == (WithLeadingSlash(s), "")
  {
    var slashed := WithLeadingSlash(s);
    assert slashed == s || slashed == "/" + s;
    RTrimNoTrailing(slashed, '?');
  }

  /** Lookup and write disagree about a trailing `/`: a `?`-free argument that
      ends in `/` but is not the root is looked up under a base `setFrom`
      never writes, so in a table of rows written by `setFrom` it finds
      nothing. */
  lemma FindByFromMissesTrailingSlash(s: string, t: Table)
    requires WellKeyed(t)
    requires forall k :: k in t ==> SlashTrimmed(k.fromBase)
    requires '?' !in s && |s| > 0 && s[|s| - 1] == '/' && WithLeadingSlash(s) != "/"
    ensures FindByFrom(s, t) == None
  {
    ParseLookupKeepsTrailingSlash(s);
  }

  /** Concrete cases: "/about/" keeps its slash when looked up, and loses it
      when written by `setFrom`; "/a?" looks up ("/a", NULL). */
  lemma ParseLookupExamples()
    ensures ParseLookup("/about/") == ("/about/", "")
    ensures FromParts("/about/").0 == "/about"
    ensures ParseLookup("/a?") == ("/a", "")
  {
    ParseLookupKeepsTrailingSlash("/about/");
    RTrimNoTrailing("/about/", '?');
    assert "/about/"[..6] == "/about";
    RTrimNoTrailing("/about", '/');
    RTrimNoTrailing("/about", '?');
    ParseLookupIgnoresTrailingQuestionMarks("/a", "?");
    ParseLookupKeepsTrailingSlash("/a");
    assert "/a" + "?" == "/a?";
  }

  /** A record stored with no querystring is found by its bare path and not
      by the path with a querystring. */
  lemma FindByFromAboutUsExample()
    ensures var t := map[Key("/about-us.html", "") := Row("/about-us.html", "", "/about")];
      FindByFrom("/about-us.html", t) == Some(Row("/about-us.html", "", "/about")) &&
      FindByFrom("/about-us.html?x=1", t) == None
  {
    ParseLookupKeepsTrailingSlash("/about-us.html");
    RTrimNoTrailing("/about-us.html?x=1", '?');
    ExplodeFirstUnique("/about-us.html?x=1", '?', "/about-us.html", "x=1");
  }

  /** A base starting with `/` and holding no `?`, followed by `?` and a
      non-empty querystring not ending in `?`, parses back into those two. */
  lemma ParseLookupBaseAndQuerystring(base: string, querystring: string)
    requires |base| > 0 && base[0] == '/' && '?' !in base
    requires querystring != [] && querystring[|querystring| - 1] != '?'
    ensures ParseLookup(base + "?" + querystring) == (base, querystring)
  {
    var url := base + "?" + querystring;
    assert url[0] == '/' && url[|url| - 1] == querystring[|querystring| - 1];
    RTrimNoTrailing(url, '?');
    ExplodeFirstUnique(url, '?', base, querystring);
  }

  /** Such a base with a truthy querystring selects exactly that index entry. */
  lemma LookupKeyWithQuerystring(base: string, querystring: string)
    requires |base| > 0 && base[0] == '/' && '?' !in base
    requires IsTruthy(querystring) && querystring[|querystring| - 1] != '?'
    ensures LookupKey(base + "?" + querystring) == Key(base, querystring)
  {
    ParseLookupBaseAndQuerystring(base, querystring);
  }

  /** Such a base alone selects its entry with a NULL querystring. */
  lemma LookupKeyWithoutQuerystring(base: string)
    requires |base| > 0 && base[0] == '/' && '?' !in base
    ensures LookupKey(base) == Key(base, "")
  {
    ParseLookupKeepsTrailingSlash(base);
  }

  /** `findByFrom` returns the row stored under the selected index entry. */
  lemma FindByFromAtKey(from: string, t: Table)
    requires LookupKey(from) in t
    ensures FindByFrom(from, t) == Some(t[LookupKey(from)])
  {
  }

  /** Looking a record up by its own `getFrom` finds it, when its columns were
      written by `setFrom`, its base is not empty and its querystring is not
      "0". */
  lemma {:induction false} FindByFromGetFrom(r: RedirectedURL, val: string, t: Table)
    requires (r.fromBase, r.fromQuerystring) == FromParts(val)
    requires r.fromBase != "" && r.fromQuerystring != "0"
    requires Key(r.fromBase, r.fromQuerystring) in t
    ensures FindByFrom(r.GetFrom(), t) == Some(t[Key(r.fromBase, r.fromQuerystring)])
  {
    var base, querystring := r.fromBase, r.fromQuerystring;
    assert |base| > 0 && base[0] == '/' && '?' !in base;
    assert querystring == [] || querystring[|querystring| - 1] != '?';
    if IsTruthy(querystring) {
      assert r.GetFrom() == base + "?" + querystring;
      LookupKeyWithQuerystring(base, querystring);
    } else {
      assert querystring == "" && r.GetFrom() == base;
      LookupKeyWithoutQuerystring(base);
    }
    FindByFromAtKey(r.GetFrom(), t);
  }

  /** A record whose querystring is "0" is never found by its own `getFrom`:
      "0" is falsy, so the lookup asks for a NULL querystring instead. */
  lemma FindByFromMissesZeroQuerystring(r: RedirectedURL, t: Table)
    requires WellKeyed(t)
    requires '?' !in r.fromBase
    requires r.fromQuerystring == "0"
    ensures FindByFrom(r.GetFrom(), t).Some? ==> FindByFrom(r.GetFrom(), t).value.fromQuerystring == ""
  {
  }
}
