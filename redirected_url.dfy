/** One redirect record: how its "from" URL is split into FromBase and
    FromQuerystring, how both and its To URL are normalised on write, and how
    the "from" URL is rebuilt. */
module RedirectedURLs {
  import opened PhpStrings

  /** A base that either is the root `/`, or is empty, or does not end in `/`. */
  predicate SlashTrimmed(s: string)
  {
    s == "/" || s == [] || s[|s| - 1] != '/'
  }

  /** The `if ($val[0] != '/') $val = "/$val";` step. On an empty `$val` PHP
      reads `$val[0]` as "" (with a notice), which differs from "/", so the
      empty string also gets the slash. */
  function WithLeadingSlash(val: string): (r: string)
    ensures |r| > 0 && r[0] == '/'
    ensures r == val <==> |val| > 0 && val[0] == '/'
    ensures r == val || r == "/" + val
  {
    if |val| == 0 || val[0] != '/' then "/" + val else val
  }

  /** The value `setFromBase` stores. What is cut from the slashed input is a
      run of `?` followed by a run of `/`; a `/` is left at the end only when
      a `?` was cut after it; the root stays the root. */
  function NormalizeFromBase(val: string): (r: string)
    ensures r <= WithLeadingSlash(val)
    ensures r == [] || r[0] == '/'
    ensures r == [] || r[|r| - 1] != '?'
    ensures WithLeadingSlash(val) == "/" ==> r == "/"
    ensures forall i :: |r| <= i < |WithLeadingSlash(val)| ==>
      WithLeadingSlash(val)[i] == '/' || WithLeadingSlash(val)[i] == '?'
    ensures forall i, j :: |r| <= i < j < |WithLeadingSlash(val)| && WithLeadingSlash(val)[i] == '/' ==>
      WithLeadingSlash(val)[j] == '/'
    ensures WithLeadingSlash(val) != "/" && r != [] && r[|r| - 1] == '/' ==>
      |r| < |WithLeadingSlash(val)| && WithLeadingSlash(val)[|r|] == '?'
  {
    var slashed := WithLeadingSlash(val);
    var trimmed := if slashed != "/" then RTrim(slashed, '/') else slashed;
    RTrimNoTrailing("/", '?');
    var r := RTrim(trimmed, '?');
    assert forall i :: |r| <= i < |trimmed| ==> slashed[i] == trimmed[i] == trimmed[|r|..][i - |r|] == '?';
    assert forall i :: |trimmed| <= i < |slashed| ==> slashed[i] == slashed[|trimmed|..][i - |trimmed|] == '/';
    r
  }

  /** On a `?`-free input the `?` strip does nothing, so the stored base holds
      no `?` and is the root or does not end in `/`. */
  lemma NormalizeFromBaseQuestionMarkFree(val: string)
    requires '?' !in val
    ensures '?' !in NormalizeFromBase(val)
    ensures SlashTrimmed(NormalizeFromBase(val))
  {
    var slashed := WithLeadingSlash(val);
    var trimmed := if slashed != "/" then RTrim(slashed, '/') else slashed;
    RTrimKeepsAbsent(slashed, '/', '?');
    RTrimNoTrailing(trimmed, '?');
  }

  /** The base normaliser yields the empty string exactly when its input is two
      or more slashes and nothing else. */
  lemma NormalizeFromBaseEmpty(val: string)
    ensures NormalizeFromBase(val) == [] <==> |val| >= 2 && AllChar(val, '/')
  {
    var slashed := WithLeadingSlash(val);
    var trimmed := if slashed != "/" then RTrim(slashed, '/') else slashed;
    if trimmed != [] {
      assert trimmed[0] == '/';
      assert NormalizeFromBase(val)[0] == '/';
    }
    if |val| >= 2 && AllChar(val, '/') {
      assert slashed == val;
      RTrimAllChar(val, '/');
    }
    if NormalizeFromBase(val) == [] {
      assert trimmed == [];
      assert slashed != "/" && AllChar(slashed[0..], '/');
      assert |slashed| >= 2 && slashed[1] == '/';
      assert slashed == val;
      assert val != "/";
    }
  }

  /** Applied to its own output the base normaliser changes nothing, as long as
      the input held no `?` and was not reduced to the empty string. */
  lemma NormalizeFromBaseIdempotent(val: string)
    requires '?' !in val
    requires !(|val| >= 2 && AllChar(val, '/'))
    ensures NormalizeFromBase(NormalizeFromBase(val)) == NormalizeFromBase(val)
  {
    var r := NormalizeFromBase(val);
    NormalizeFromBaseEmpty(val);
    NormalizeFromBaseQuestionMarkFree(val);
    assert WithLeadingSlash(r) == r;
    if r != "/" {
      RTrimNoTrailing(r, '/');
    }
    RTrimNoTrailing(r, '?');
  }

  /** Without those two conditions idempotence fails: a trailing `/?` loses
      the `?` first and the `/` only on a second pass, and `//` becomes the
      empty string, which a second pass turns into the root. */
  lemma NormalizeFromBaseNotIdempotent()
    ensures NormalizeFromBase("/a/?") == "/a/"
    ensures NormalizeFromBase("/a/") == "/a"
    ensures NormalizeFromBase("//") == ""
    ensures NormalizeFromBase("") == "/"
  {
    RTrimNoTrailing("/a/?", '/');
    assert "/a/?"[..3] == "/a/";
    RTrimNoTrailing("/a/", '?');
    assert "/a/"[..2] == "/a";
    RTrimNoTrailing("/a", '/');
    RTrimNoTrailing("/a", '?');
    RTrimAllChar("//", '/');
    RTrimNoTrailing("/", '?');
  }

  /** The value `setTo` stores: trailing `?` stripped, then trailing `/`
      stripped unless the value is exactly the root. */
  function NormalizeTo(val: string): (r: string)
    ensures r <= RTrim(val, '?') <= val
    ensures AllChar(RTrim(val, '?')[|r|..], '/')
    ensures SlashTrimmed(r)
    ensures r == "/" <==> RTrim(val, '?') == "/"
  {
    var stripped := RTrim(val, '?');
    if stripped != "/" then RTrim(stripped, '/') else stripped
  }

  /** The two strips run once each, so a `?` uncovered by the `/` strip stays. */
  lemma NormalizeToKeepsUncoveredQuestionMark()
    ensures NormalizeTo("/a?/") == "/a?"
  {
    RTrimNoTrailing("/a?/", '?');
    assert "/a?/"[..3] == "/a?";
    RTrimNoTrailing("/a?", '/');
  }

  /** The pair (FromBase, FromQuerystring) that `setFrom` stores. With no `?`
      in the value PHP passes `null` on, and `rtrim(null, '?')` is "". */
  function FromParts(val: string): (parts: (string, string))
    ensures '?' !in parts.0
    ensures parts.0 == [] || parts.0[0] == '/'
    ensures SlashTrimmed(parts.0)
    ensures parts.1 == [] || parts.1[|parts.1| - 1] != '?'
    ensures '?' !in val ==> parts == (NormalizeFromBase(val), "")
  {
    if '?' in val then
      var (base, querystring) := ExplodeFirst(val, '?');
      NormalizeFromBaseQuestionMarkFree(base);
      (NormalizeFromBase(base), RTrim(querystring, '?'))
    else
      NormalizeFromBaseQuestionMarkFree(val);
      (NormalizeFromBase(val), "")
  }

  /** `setFrom` cuts at the first `?`: the base is normalised from the text
      before it and the querystring is the text after it with its trailing
      `?` removed. */
  lemma FromPartsSplitsAtFirstQuestionMark(before: string, after: string)
    requires '?' !in before
    ensures FromParts(before + "?" + after) == (NormalizeFromBase(before), RTrim(after, '?'))
  {
    ExplodeFirstUnique(before + "?" + after, '?', before, after);
  }

  /** One redirect record, holding the three URL columns the core writes. */
  class RedirectedURL {
    var fromBase: string
    var fromQuerystring: string
    var to: string

    /** A fresh record: every column empty. */
    constructor ()
      ensures fromBase == "" && fromQuerystring == "" && to == ""
    {
      fromBase, fromQuerystring, to := "", "", "";
    }

    /** `setFrom`: splits at the first `?` and hands both halves on. */
    method SetFrom(val: string)
      modifies this`fromBase, this`fromQuerystring
      ensures (fromBase, fromQuerystring) == FromParts(val)
    {
      var base, querystring;
      if '?' in val {
        base, querystring := ExplodeFirst(val, '?').0, ExplodeFirst(val, '?').1;
      } else {
        base, querystring := val, "";
      }
      SetFromBase(base);
      SetFromQuerystring(querystring);
    }

    /** `setFromBase`. */
    method SetFromBase(val: string)
      modifies this`fromBase
      ensures fromBase == NormalizeFromBase(val)
    {
      var v := val;
      if |v| == 0 || v[0] != '/' {
        v := "/" + v;
      }
      if v != "/" {
        v := RTrim(v, '/');
      }
      v := RTrim(v, '?');
      fromBase := v;
    }

    /** `setFromQuerystring`. */
    method SetFromQuerystring(val: string)
      modifies this`fromQuerystring
      ensures fromQuerystring == RTrim(val, '?')
    {
      var v := RTrim(val, '?');
      fromQuerystring := v;
    }

    /** `setTo`. */
    method SetTo(val: string)
      modifies this`to
      ensures to == NormalizeTo(val)
    {
      var v := RTrim(val, '?');
      if v != "/" {
        v := RTrim(v, '/');
      }
      to := v;
    }

    /** `getFrom`: the base, followed by `?` and the querystring only when the
        querystring is truthy in PHP's sense. */
    function GetFrom(): (url: string)
      reads this
      ensures fromBase <= url
      ensures url == fromBase <==> !IsTruthy(fromQuerystring)
      ensures url != fromBase ==> url[|fromBase|..] == "?" + fromQuerystring
    {
      if IsTruthy(fromQuerystring) then fromBase + "?" + fromQuerystring else fromBase
    }
  }

  /** A non-empty base written by `setFrom` is left as it is by the base
      normaliser. */
  lemma StoredBaseIsFixed(val: string)
    requires FromParts(val).0 != ""
    ensures NormalizeFromBase(FromParts(val).0) == FromParts(val).0
  {
    var preimage := if '?' in val then ExplodeFirst(val, '?').0 else val;
    assert FromParts(val).0 == NormalizeFromBase(preimage);
    NormalizeFromBaseEmpty(preimage);
    NormalizeFromBaseIdempotent(preimage);
  }

  /** Feeding `getFrom` back into `setFrom` gives the same two columns, for a
      record whose columns `setFrom` wrote, whose base is not empty and whose
      querystring is not "0". */
  lemma {:induction false} SetFromGetFromRoundTrip(r: RedirectedURL, val: string)
    requires (r.fromBase, r.fromQuerystring) == FromParts(val)
    requires r.fromBase != "" && r.fromQuerystring != "0"
    ensures FromParts(r.GetFrom()) == (r.fromBase, r.fromQuerystring)
  {
    var base, querystring := r.fromBase, r.fromQuerystring;
    StoredBaseIsFixed(val);
    RTrimNoTrailing(querystring, '?');
    if IsTruthy(querystring) {
      assert r.GetFrom() == base + "?" + querystring;
      FromPartsSplitsAtFirstQuestionMark(base, querystring);
    } else {
      assert querystring == "" && r.GetFrom() == base;
    }
  }

  /** A querystring of "0" is falsy, so `getFrom` drops it and `setFrom` on the
      result stores "" instead. */
  lemma ZeroQuerystringDoesNotRoundTrip(r: RedirectedURL)
    requires '?' !in r.fromBase
    requires r.fromQuerystring == "0"
    ensures r.GetFrom() == r.fromBase
    ensures FromParts(r.GetFrom()).1 == ""
  {
  }
}
