/** The PHP string built-ins the redirect record relies on, over strings as
    sequences of characters. Only the one-character forms the record uses are
    modelled: `rtrim($s, c)`, `explode(c, $s, 2)` on a string holding `c`, and
    PHP's truthiness of a string. */
module PhpStrings {

  /** PHP truthiness of a string: exactly "" and "0" are false. */
  predicate IsTruthy(s: string)
  {
    s != "" && s != "0"
  }

  /** Every character of `s` is `c`. */
  predicate AllChar(s: string, c: char)
  {
    forall i :: 0 <= i < |s| ==> s[i] == c
  }

  /** `rtrim($s, c)`: `s` without its trailing run of `c`. */
  function RTrim(s: string, c: char): (r: string)
    ensures r <= s
    ensures r == [] || r[|r| - 1] != c
    ensures AllChar(s[|r|..], c)
    decreases |s|
  {
    if s != [] && s[|s| - 1] == c then RTrim(s[..|s| - 1], c) else s
  }

  /** The three properties of RTrim's contract determine its result: rtrim
      removes exactly the trailing run of `c`, no more and no less. */
  lemma RTrimUnique(s: string, c: char, r: string)
    requires r <= s
    requires r == [] || r[|r| - 1] != c
    requires AllChar(s[|r|..], c)
    ensures RTrim(s, c) == r
  {
    var t := RTrim(s, c);
    assert t == s[..|t|] && r == s[..|r|];
  }

  /** A string that does not end in `c` is left alone. */
  lemma RTrimNoTrailing(s: string, c: char)
    requires s == [] || s[|s| - 1] != c
    ensures RTrim(s, c) == s
  {
  }

  /** Trimming twice is trimming once. */
  lemma RTrimIdempotent(s: string, c: char)
    ensures RTrim(RTrim(s, c), c) == RTrim(s, c)
  {
    RTrimNoTrailing(RTrim(s, c), c);
  }

  /** A run of `c` appended to `s` is trimmed away with the rest. */
  lemma {:induction false} RTrimAbsorbsRun(s: string, run: string, c: char)
    requires AllChar(run, c)
    ensures RTrim(s + run, c) == RTrim(s, c)
    decreases |run|
  {
    if run != [] {
      var shorter := run[..|run| - 1];
      assert (s + run)[|s + run| - 1] == run[|run| - 1] == c;
      assert (s + run)[..|s + run| - 1] == s + shorter;
      assert RTrim(s + run, c) == RTrim(s + shorter, c);
      RTrimAbsorbsRun(s, shorter, c);
    } else {
      assert s + run == s;
    }
  }

  /** A string made only of `c` trims to nothing. */
  lemma RTrimAllChar(s: string, c: char)
    requires AllChar(s, c)
    ensures RTrim(s, c) == []
  {
    RTrimAbsorbsRun([], s, c);
    assert [] + s == s;
  }

  /** Trimming keeps a prefix, so it cannot introduce a character. */
  lemma RTrimKeepsAbsent(s: string, c: char, d: char)
    requires d !in s
    ensures d !in RTrim(s, c)
  {
    var r := RTrim(s, c);
    assert forall i :: 0 <= i < |r| ==> r[i] == s[i];
  }

  /** `explode(c, $s, 2)` on a string that holds `c`: the text before the first
      `c` and the text after it. */
  function ExplodeFirst(s: string, c: char): (parts: (string, string))
    requires c in s
    ensures s == parts.0 + [c] + parts.1
    ensures c !in parts.0
  {
    if s[0] == c then
      assert s == [] + [c] + s[1..];
      ([], s[1..])
    else
      var (before, after) := ExplodeFirst(s[1..], c);
      assert s == [s[0]] + s[1..];
      ([s[0]] + before, after)
  }

  /** The split is the one at the FIRST `c`: any split of `s` around a `c`
      whose left part holds no `c` is the one ExplodeFirst returns. */
  lemma ExplodeFirstUnique(s: string, c: char, before: string, after: string)
    requires s == before + [c] + after
    requires c !in before
    ensures c in s
    ensures ExplodeFirst(s, c) == (before, after)
  {
    assert s[|before|] == c;
    var parts := ExplodeFirst(s, c);
    assert forall i :: 0 <= i < |before| ==> s[i] != c;
    assert forall i :: 0 <= i < |parts.0| ==> s[i] != c;
    assert s[|parts.0|] == c;
    assert parts.0 == s[..|before|] == before;
    assert parts.1 == s[|before| + 1..] == after;
  }
}
