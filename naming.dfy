/**
 * How a table class's name becomes the name of its accessor on `Table`:
 * the part of the class name after the last `::` (the regular expression
 * `[^:]+\z`), turned from CamelCase into snake_case (ActiveSupport's
 * `underscore`, restricted to the two rules that matter for a constant
 * name without `::` or `-`).
 */
module Naming {
  import opened Wrappers
  import opened Chars

  /** ASCII down-casing, as Ruby's `String#downcase` does for these names. */
  function Downcase(c: char): (d: char)
    ensures !IsUpper(d)
    ensures IsUpper(c) ==> IsLower(d) && d as int == c as int + 32
    ensures !IsUpper(c) ==> d == c
  {
    if IsUpper(c) then (c as int + 32) as char else c
  }

  function DowncaseAll(s: string): (r: string)
    ensures |r| == |s| && forall i :: 0 <= i < |s| ==> r[i] == Downcase(s[i])
    decreases |s|
  {
    if |s| == 0 then [] else DowncaseAll(s[..|s| - 1]) + [Downcase(s[|s| - 1])]
  }

  /** The longest suffix of `s` that holds no colon. */
  function ColonFreeSuffix(s: string): (r: string)
    ensures |r| <= |s| && s[|s| - |r|..] == r
    ensures ':' !in r
    ensures |r| == |s| || s[|s| - |r| - 1] == ':'
    decreases |s|
  {
    if |s| == 0 || s[|s| - 1] == ':' then []
    else ColonFreeSuffix(s[..|s| - 1]) + [s[|s| - 1]]
  }

  /** `name[/[^:]+\z/]`: the last `::`-separated segment, or `nil` when the
      name is empty or ends in a colon (the expression then matches nothing). */
  function LastSegment(name: string): (r: Option<string>)
    ensures r.None? <==> |name| == 0 || name[|name| - 1] == ':'
    ensures r.Some? ==> |r.value| > 0 && ':' !in r.value
    ensures r.Some? ==> exists k :: 0 <= k < |name| && name[k..] == r.value && (k == 0 || name[k - 1] == ':')
  {
    var tail := ColonFreeSuffix(name);
    if |tail| == 0 then None
    else
      assert name[|name| - |tail|..] == tail;
      Some(tail)
  }

  /** An underscore goes in front of the upper-case letter at `i` when it
      follows a lower-case letter or digit (`([a-z\d])([A-Z])`), or when it
      follows another upper-case letter and is itself followed by a
      lower-case one, as the last capital of an acronym
      (`([A-Z]+)([A-Z][a-z])`). */
  predicate WordBoundary(s: string, i: nat)
    requires i < |s|
  {
    && 0 < i
    && IsUpper(s[i])
    && (|| IsLower(s[i - 1])
        || IsDigit(s[i - 1])
        || (IsUpper(s[i - 1]) && i + 1 < |s| && IsLower(s[i + 1])))
  }

  /** The snake_case form of the first `n` characters of `s`. */
  function SnakePrefix(s: string, n: nat): string
    requires n <= |s|
    decreases n
  {
    if n == 0 then []
    else SnakePrefix(s, n - 1) + (if WordBoundary(s, n - 1) then "_" else "") + [Downcase(s[n - 1])]
  }

  /** `String#underscore` on a single constant name. */
  function Underscore(s: string): (r: string)
    ensures forall i :: 0 <= i < |r| ==> !IsUpper(r[i])
    ensures |r| >= |s|
  {
    SnakePrefixIsLower(s, |s|);
    SnakePrefix(s, |s|)
  }

  /** The accessor name defined for a class called `name`, if any. */
  function AccessorName(name: string): Option<string> {
    match LastSegment(name)
    case None => None
    case Some(segment) => Some(Underscore(segment))
  }

  /** `s` with every underscore taken out. */
  function EraseUnderscores(s: string): (r: string)
    ensures '_' !in r
    decreases |s|
  {
    if |s| == 0 then []
    else EraseUnderscores(s[..|s| - 1]) + (if s[|s| - 1] == '_' then [] else [s[|s| - 1]])
  }

  lemma {:induction false} SnakePrefixIsLower(s: string, n: nat)
    requires n <= |s|
    ensures |SnakePrefix(s, n)| >= n
    ensures forall i :: 0 <= i < |SnakePrefix(s, n)| ==> !IsUpper(SnakePrefix(s, n)[i])
    decreases n
  {
    if n > 0 {
      SnakePrefixIsLower(s, n - 1);
    }
  }

  /** Erasing underscores from one more snake-cased character. */
  lemma EraseStep(prev: string, sep: string, c: char)
    requires sep == "" || sep == "_"
    requires c != '_'
    ensures EraseUnderscores(prev + sep + [c]) == EraseUnderscores(prev) + [c]
  {
    var p := prev + sep;
    assert EraseUnderscores(p + [c]) == EraseUnderscores(p) + [c] by {
      assert (p + [c])[..|p + [c]| - 1] == p;
    }
    assert EraseUnderscores(p) == EraseUnderscores(prev) by {
      if sep == "_" {
        assert p[..|p| - 1] == prev;
      } else {
        assert p == prev;
      }
    }
  }

  lemma DowncasePrefixStep(s: string, n: nat)
    requires 0 < n <= |s|
    ensures DowncaseAll(s[..n]) == DowncaseAll(s[..n - 1]) + [Downcase(s[n - 1])]
  {
    assert s[..n][..n - 1] == s[..n - 1];
  }

  lemma {:induction false} SnakePrefixErases(s: string, n: nat)
    requires n <= |s|
    requires '_' !in s
    ensures EraseUnderscores(SnakePrefix(s, n)) == DowncaseAll(s[..n])
    decreases n
  {
    if n > 0 {
      SnakePrefixErases(s, n - 1);
      assert s[n - 1] in s;
      EraseStep(SnakePrefix(s, n - 1), if WordBoundary(s, n - 1) then "_" else "", Downcase(s[n - 1]));
      DowncasePrefixStep(s, n);
    }
  }

  /** Snake-casing only inserts underscores and lowers letters: erasing the
      underscores of the result gives the down-cased original. */
  lemma UnderscoreOnlyInsertsSeparators(s: string)
    requires '_' !in s
    ensures EraseUnderscores(Underscore(s)) == DowncaseAll(s)
  {
    SnakePrefixErases(s, |s|);
    assert s[..|s|] == s;
  }

  lemma {:induction false} ColonFreeSuffixAfterColon(prefix: string, segment: string)
    requires |prefix| > 0 && prefix[|prefix| - 1] == ':'
    requires ':' !in segment
    ensures ColonFreeSuffix(prefix + segment) == segment
    decreases |segment|
  {
    var s := prefix + segment;
    if |segment| == 0 {
      assert s == prefix;
    } else {
      var init := segment[..|segment| - 1];
      assert s[..|s| - 1] == prefix + init;
      assert segment[|segment| - 1] in segment;
      ColonFreeSuffixAfterColon(prefix, init);
      assert segment == init + [segment[|segment| - 1]];
    }
  }

  /** The accessor of a class nested in a namespace is named from its last
      segment alone: `BetterBJ::ActiveJob` gets the same name as `ActiveJob`. */
  lemma QualifiedAccessorName(namespace: string, segment: string)
    requires |segment| > 0 && ':' !in segment
    ensures AccessorName(namespace + "::" + segment) == Some(Underscore(segment))
  {
    ColonFreeSuffixAfterColon(namespace + "::", segment);
  }

  /** A capitalised word: an upper-case letter and then lower-case ones. */
  predicate Capitalized(w: string) {
    && |w| > 0
    && IsUpper(w[0])
    && forall i :: 1 <= i < |w| ==> IsLower(w[i])
  }

  /** Snake-casing a prefix looks at most one character past it, and only
      when the prefix ends in an upper-case letter; otherwise text appended
      behind the prefix leaves its snake_case form alone. */
  lemma {:induction false} SnakePrefixExtend(s: string, u: string, n: nat)
    requires n <= |s|
    requires n < |s| || n == 0 || !IsUpper(s[|s| - 1])
    ensures SnakePrefix(s + u, n) == SnakePrefix(s, n)
    decreases n
  {
    if n > 0 {
      SnakePrefixExtend(s, u, n - 1);
      assert (s + u)[n - 1] == s[n - 1];
      if n > 1 {
        assert (s + u)[n - 2] == s[n - 2];
      }
      if n < |s| {
        assert (s + u)[n] == s[n];
      }
      assert WordBoundary(s + u, n - 1) == WordBoundary(s, n - 1);
    }
  }

  lemma {:induction false} SnakeFirstWord(w: string, k: nat)
    requires Capitalized(w) && k <= |w|
    ensures SnakePrefix(w, k) == DowncaseAll(w[..k])
    decreases k
  {
    if k == 0 {
      assert w[..0] == [];
    } else {
      SnakeFirstWord(w, k - 1);
      if k > 1 {
        assert IsLower(w[k - 1]);
      }
      assert !WordBoundary(w, k - 1);
      DowncasePrefixStep(w, k);
    }
  }

  /** The separator in front of a later word's first letter. */
  lemma SnakeWordStart(p: string, w: string)
    requires |p| > 0 && IsLower(p[|p| - 1])
    requires Capitalized(w)
    ensures SnakePrefix(p + w, |p| + 1) == SnakePrefix(p, |p|) + "_" + [Downcase(w[0])]
  {
    var s := p + w;
    SnakePrefixExtend(p, w, |p|);
    assert s[|p|] == w[0] && s[|p| - 1] == p[|p| - 1];
    assert WordBoundary(s, |p|);
  }

  lemma {:induction false} SnakeLaterWord(p: string, w: string, k: nat)
    requires |p| > 0 && IsLower(p[|p| - 1])
    requires Capitalized(w) && 0 < k <= |w|
    ensures SnakePrefix(p + w, |p| + k) == SnakePrefix(p, |p|) + "_" + DowncaseAll(w[..k])
    decreases k
  {
    var s := p + w;
    if k == 1 {
      SnakeWordStart(p, w);
      assert w[..1][..0] == [];
      DowncasePrefixStep(w, 1);
    } else {
      SnakeLaterWord(p, w, k - 1);
      assert s[|p| + k - 1] == w[k - 1];
      assert IsLower(w[k - 1]);
      assert !WordBoundary(s, |p| + k - 1);
      DowncasePrefixStep(w, k);
    }
  }

  /** A single capitalised word is only down-cased: `Job` gives `job`. */
  lemma UnderscoreWord(w: string)
    requires Capitalized(w)
    ensures Underscore(w) == DowncaseAll(w)
  {
    SnakeFirstWord(w, |w|);
    assert w[..|w|] == w;
  }

  /** Each further capitalised word is joined on with an underscore:
      `ActiveJob` gives `active_job`. */
  lemma UnderscoreAppendWord(p: string, w: string)
    requires |p| > 0 && IsLower(p[|p| - 1])
    requires Capitalized(w)
    ensures Underscore(p + w) == Underscore(p) + "_" + DowncaseAll(w)
  {
    SnakeLaterWord(p, w, |w|);
    assert w[..|w|] == w;
  }

  /** The acronym rule: the last capital of a run of capitals starts a new
      word when a lower-case letter follows it (`HTTPServer` gives
      `http_server`). */
  lemma UnderscoreAcronymBeforeWord()
    ensures Underscore("HTTPServer") == "http_server"
  {
    var s := "HTTPServer";
    assert SnakePrefix(s, 1) == "h";
    assert SnakePrefix(s, 2) == "ht";
    assert SnakePrefix(s, 3) == "htt";
    assert SnakePrefix(s, 4) == "http";
    assert SnakePrefix(s, 5) == "http_s";
    assert SnakePrefix(s, 6) == "http_se";
    assert SnakePrefix(s, 7) == "http_ser";
    assert SnakePrefix(s, 8) == "http_serv";
    assert SnakePrefix(s, 9) == "http_serve";
    assert SnakePrefix(s, 10) == "http_server";
  }

  /** A run of capitals at the end of a name stays one word (`ShellAPI`
      gives `shell_api`). */
  lemma UnderscoreAcronymAtEnd()
    ensures Underscore("ShellAPI") == "shell_api"
  {
    var s := "ShellAPI";
    assert SnakePrefix(s, 1) == "s";
    assert SnakePrefix(s, 2) == "sh";
    assert SnakePrefix(s, 3) == "she";
    assert SnakePrefix(s, 4) == "shel";
    assert SnakePrefix(s, 5) == "shell";
    assert SnakePrefix(s, 6) == "shell_a";
    assert SnakePrefix(s, 7) == "shell_ap";
    assert SnakePrefix(s, 8) == "shell_api";
  }
}
