/** How a PSR-4 namespace prefix and a file's relative pathname are combined
    into a candidate fully-qualified class name (src/Helpers/FileHelper.php,
    lines 81-85): the prefix loses its trailing namespace separators, the
    pathname loses every `.php` and has its directory separators turned into
    namespace separators, and the two are joined by one namespace separator.

    Strings are sequences of characters. Every character involved ('\', '/',
    '.', 'p', 'h') is ASCII, and no byte of a multi-byte UTF-8 character is
    ASCII, so working on characters gives the same result as PHP's byte-wise
    string functions. */
module ClassNames {

  /** The PHP namespace separator. */
  const Separator: char := '\\'
  /** The directory separator of relative pathnames. */
  const Slash: char := '/'
  /** The text removed from pathnames. */
  const PhpExtension: string := ".php"

  // ---------------------------------------------------------------------------
  // Trimming trailing namespace separators from a PSR-4 prefix
  // ---------------------------------------------------------------------------

  /** Drops every trailing namespace separator: the result is the longest
      prefix of `s` that does not end in a separator, and only separators were
      removed. */
  function TrimSeparators(s: string): (r: string)
    ensures |r| <= |s| && r == s[..|r|]
    ensures r == [] || r[|r| - 1] != Separator
    ensures forall k :: |r| <= k < |s| ==> s[k] == Separator
  {
    if |s| > 0 && s[|s| - 1] == Separator then TrimSeparators(s[..|s| - 1]) else s
  }

  /** `n` namespace separators in a row. */
  function Separators(n: nat): (r: string)
    ensures |r| == n
    ensures forall k :: 0 <= k < n ==> r[k] == Separator
  {
    seq(n, _ => Separator)
  }

  /** Trimming is pinned down by its contract: whenever `s` is some `t` that
      does not end in a separator followed only by separators, the trimmed
      string is exactly `t`. */
  lemma TrimSeparatorsUnique(s: string, t: string, n: nat)
    requires s == t + Separators(n)
    requires t == [] || t[|t| - 1] != Separator
    ensures TrimSeparators(s) == t
  {
    var r := TrimSeparators(s);
    assert forall k :: |t| <= k < |s| ==> s[k] == Separator;
    if |t| > 0 {
      assert s[|t| - 1] != Separator;
    }
    if |r| > 0 {
      assert s[|r| - 1] != Separator;
    }
    assert |r| == |t|;
  }

  /** Trimming twice is trimming once. */
  lemma TrimSeparatorsIdempotent(s: string)
    ensures TrimSeparators(TrimSeparators(s)) == TrimSeparators(s)
  {
    TrimSeparatorsUnique(TrimSeparators(s), TrimSeparators(s), 0);
  }

  /** Extra trailing separators on a prefix make no difference after trimming:
      `Foo\`, `Foo\\` and `Foo` all trim to `Foo`. */
  lemma TrimSeparatorsAbsorbsTrailing(s: string, n: nat)
    ensures TrimSeparators(s + Separators(n)) == TrimSeparators(s)
  {
    var t := TrimSeparators(s);
    var m := |s| - |t|;
    assert s == t + Separators(m);
    assert s + Separators(n) == t + Separators(m + n);
    TrimSeparatorsUnique(s + Separators(n), t, m + n);
  }

  /** Worked example: the usual composer.json prefix `Foo\` trims to `Foo`. */
  lemma TrimSeparatorsExample()
    ensures TrimSeparators("Foo\\") == "Foo"
  {
    assert "Foo\\"[..3] == "Foo";
  }

  // ---------------------------------------------------------------------------
  // Deleting every `.php` from a relative pathname
  // ---------------------------------------------------------------------------

  /** `.php` occurs in `s` starting at position `k`, compared character by
      character. */
  predicate PhpAt(s: string, k: int)
  {
    && 0 <= k && k + |PhpExtension| <= |s|
    && s[k] == PhpExtension[0] && s[k + 1] == PhpExtension[1]
    && s[k + 2] == PhpExtension[2] && s[k + 3] == PhpExtension[3]
  }

  /** The same test read as a comparison of the four-character substring at
      `k` with the search string. */
  lemma {:induction false} PhpAtIsSubstring(s: string, k: int)
    ensures PhpAt(s, k) <==> 0 <= k && k + |PhpExtension| <= |s| && s[k..k + |PhpExtension|] == PhpExtension
  {
    if 0 <= k && k + |PhpExtension| <= |s| {
      var w := s[k..k + |PhpExtension|];
      assert w[0] == s[k] && w[1] == s[k + 1] && w[2] == s[k + 2] && w[3] == s[k + 3];
      if PhpAt(s, k) {
        assert forall m | 0 <= m < |PhpExtension| :: w[m] == PhpExtension[m];
      }
    }
  }

  /** `.php` occurs somewhere in `s`. */
  predicate ContainsPhp(s: string)
  {
    exists k :: 0 <= k <= |s| && PhpAt(s, k)
  }

  /** One left-to-right pass over `s` that deletes each non-overlapping
      occurrence of `.php`, wherever it is; the scan resumes right after a
      deleted occurrence and never looks at its own output. */
  function StripPhp(s: string): (r: string)
    ensures |r| <= |s|
    decreases |s|
  {
    if |s| == 0 then []
    else if PhpAt(s, 0) then StripPhp(s[|PhpExtension|..])
    else [s[0]] + StripPhp(s[1..])
  }

  /** A cursor resting on an occurrence skips it without output. */
  lemma {:induction false} StripPhpAtMatch(s: string, i: nat)
    requires PhpAt(s, i)
    ensures StripPhp(s[i..]) == StripPhp(s[i + |PhpExtension|..])
  {
    assert PhpAt(s[i..], 0);
    assert s[i..][|PhpExtension|..] == s[i + |PhpExtension|..];
  }

  /** A cursor resting anywhere else copies one character. */
  lemma {:induction false} StripPhpAtOther(s: string, i: nat)
    requires i < |s|
    requires !PhpAt(s, i)
    ensures StripPhp(s[i..]) == [s[i]] + StripPhp(s[i + 1..])
  {
    assert !PhpAt(s[i..], 0);
    assert s[i..][1..] == s[i + 1..];
  }

  /** The same pass written as the scanning loop a `str_replace` performs,
      with a cursor into the subject and an output buffer. */
  method StrReplacePhp(s: string) returns (r: string)
    ensures r == StripPhp(s)
  {
    r := [];
    var i := 0;
    while i < |s|
      invariant 0 <= i <= |s|
      invariant r + StripPhp(s[i..]) == StripPhp(s)
    {
      if PhpAt(s, i) {
        StripPhpAtMatch(s, i);
        i := i + |PhpExtension|;
      } else {
        StripPhpAtOther(s, i);
        assert r + ([s[i]] + StripPhp(s[i + 1..])) == (r + [s[i]]) + StripPhp(s[i + 1..]);
        r := r + [s[i]];
        i := i + 1;
      }
    }
    assert s[i..] == [];
  }

  /** An occurrence one position further into `s` is an occurrence in its tail. */
  lemma {:induction false} PhpAtShift(s: string, k: nat)
    requires |s| > 0
    ensures PhpAt(s, k + 1) <==> PhpAt(s[1..], k)
  {
    if k + 1 + |PhpExtension| <= |s| {
      assert s[1..][k] == s[k + 1] && s[1..][k + 3] == s[k + 4];
    }
  }

  /** A string with no `.php` in it passes through unchanged. */
  lemma {:induction false} StripPhpWithoutPhp(s: string)
    requires !ContainsPhp(s)
    ensures StripPhp(s) == s
    decreases |s|
  {
    if |s| > 0 {
      assert !PhpAt(s, 0);
      forall k | 0 <= k <= |s[1..]|
        ensures !PhpAt(s[1..], k)
      {
        PhpAtShift(s, k);
      }
      StripPhpWithoutPhp(s[1..]);
    }
  }

  /** A string that contains `.php` anywhere always loses something. */
  lemma {:induction false} StripPhpShrinks(s: string, k: nat)
    requires PhpAt(s, k)
    ensures |StripPhp(s)| < |s|
    decreases k
  {
    if !PhpAt(s, 0) {
      PhpAtShift(s, k - 1);
      StripPhpShrinks(s[1..], k - 1);
    }
  }

  /** Passing through unchanged is exactly having no `.php` in it. */
  lemma StripPhpUnchangedIff(s: string)
    ensures StripPhp(s) == s <==> !ContainsPhp(s)
  {
    if ContainsPhp(s) {
      var k :| 0 <= k <= |s| && PhpAt(s, k);
      StripPhpShrinks(s, k);
    } else {
      StripPhpWithoutPhp(s);
    }
  }

  /** Only the characters of `.php` are ever removed: every other character
      (in particular each `/`) occurs as often in the result as in the input. */
  lemma {:induction false} StripPhpKeepsOtherCharacters(s: string, c: char)
    requires c !in PhpExtension
    ensures multiset(StripPhp(s))[c] == multiset(s)[c]
    decreases |s|
  {
    if |s| == 0 {
    } else if PhpAt(s, 0) {
      StripPhpKeepsOtherCharacters(s[|PhpExtension|..], c);
      CountWithoutPhp(s, c);
    } else {
      StripPhpKeepsOtherCharacters(s[1..], c);
      StripPhpCopiesFront(s);
      assert s == [s[0]] + s[1..];
      CountCons(s[0], s[1..], c);
      CountCons(s[0], StripPhp(s[1..]), c);
    }
  }

  /** Deleting a `.php` at the front leaves the count of every other
      character as it was. */
  lemma {:induction false} CountWithoutPhp(s: string, c: char)
    requires PhpAt(s, 0) && c !in PhpExtension
    ensures multiset(s)[c] == multiset(s[|PhpExtension|..])[c]
  {
    PhpAtIsSubstring(s, 0);
    assert s == PhpExtension + s[|PhpExtension|..];
  }

  /** Counting in a string with one more character in front. */
  lemma {:induction false} CountCons(x: char, t: string, c: char)
    ensures multiset([x] + t)[c] == multiset([x])[c] + multiset(t)[c]
  {
  }

  /** No `.php` can start at the front of `a + b` unless it starts at the front
      of `a`, when `b` cannot complete one begun in `a`. */
  lemma {:induction false} NoPhpAcrossJoin(a: string, b: string)
    requires |a| > 0 && !PhpAt(a, 0)
    requires b == [] || b[0] !in PhpExtension[1..]
    ensures !PhpAt(a + b, 0)
  {
    if |a| < |PhpExtension| && |a + b| >= |PhpExtension| {
      assert (a + b)[|a|] == b[0];
      assert PhpExtension[|a|] in PhpExtension[1..];
    }
  }

  /** An occurrence at the front of `a` is also at the front of `a + b`. */
  lemma {:induction false} StripPhpJoinAtMatch(a: string, b: string)
    requires PhpAt(a, 0)
    ensures StripPhp(a + b) == StripPhp(a[|PhpExtension|..] + b)
  {
    assert PhpAt(a + b, 0);
    assert (a + b)[|PhpExtension|..] == a[|PhpExtension|..] + b;
  }

  /** A front of `a` that is not an occurrence stays one in `a + b`, when `b`
      cannot complete an occurrence begun in `a`. */
  lemma {:induction false} StripPhpJoinAtOther(a: string, b: string)
    requires |a| > 0 && !PhpAt(a, 0)
    requires b == [] || b[0] !in PhpExtension[1..]
    ensures StripPhp(a + b) == [a[0]] + StripPhp(a[1..] + b)
  {
    var ab := a + b;
    assert !PhpAt(ab, 0) by {
      NoPhpAcrossJoin(a, b);
    }
    StripPhpCopiesFront(ab);
    assert ab[0] == a[0] && ab[1..] == a[1..] + b;
  }

  /** Concatenation is associative. */
  lemma AppendAssociative<T>(x: seq<T>, y: seq<T>, z: seq<T>)
    ensures x + (y + z) == (x + y) + z
  {
  }

  /** An occurrence at the front is deleted. */
  lemma {:induction false} StripPhpSkipsFront(s: string)
    requires PhpAt(s, 0)
    ensures StripPhp(s) == StripPhp(s[|PhpExtension|..])
  {
  }

  /** Without an occurrence at the front, the first character is copied. */
  lemma {:induction false} StripPhpCopiesFront(s: string)
    requires |s| > 0 && !PhpAt(s, 0)
    ensures StripPhp(s) == [s[0]] + StripPhp(s[1..])
  {
  }

  /** The pass works piece by piece: it can be run on `a` and `b` separately
      as long as `b` does not start with a character that could complete a
      `.php` begun at the end of `a` (`.php` has no proper prefix that is also
      a suffix, so no occurrence can straddle the join otherwise). */
  lemma {:induction false} StripPhpAppend(a: string, b: string)
    requires b == [] || b[0] !in PhpExtension[1..]
    ensures StripPhp(a + b) == StripPhp(a) + StripPhp(b)
    decreases |a|
  {
    if |a| == 0 {
      assert a + b == b;
    } else if PhpAt(a, 0) {
      StripPhpJoinAtMatch(a, b);
      StripPhpSkipsFront(a);
      StripPhpAppend(a[|PhpExtension|..], b);
    } else {
      StripPhpJoinAtOther(a, b);
      StripPhpCopiesFront(a);
      StripPhpAppend(a[1..], b);
      AppendAssociative([a[0]], StripPhp(a[1..]), StripPhp(b));
    }
  }

  /** `.php` is removed anywhere, not only as a suffix. */
  lemma StripPhpExampleInner()
    ensures StripPhp("a.phpx") == "ax"
  {
    assert PhpAt("a.phpx"[1..], 0);
  }

  /** A trailing `.php` goes. */
  lemma StripPhpExampleSuffix()
    ensures StripPhp("Bar.php") == "Bar"
  {
    assert PhpAt("Bar.php"[3..], 0);
  }

  /** The pass is single: an occurrence that the removal itself exposes
      stays, so the replacement is not idempotent. */
  lemma StripPhpExampleSinglePass()
    ensures StripPhp("..phpphp") == ".php"
    ensures StripPhp(StripPhp("..phpphp")) != StripPhp("..phpphp")
  {
    var s := "..phpphp";
    assert !PhpAt(s, 0);
    assert StripPhp(s) == "." + StripPhp(s[1..]);
    assert s[1..] == ".phpphp" && PhpAt(s[1..], 0);
    assert StripPhp(".phpphp") == StripPhp("php");
    StripPhpWithoutPhp("php");
    assert PhpAt(".php", 0);
    assert StripPhp(".php") == StripPhp(".php"[4..]);
  }

  // ---------------------------------------------------------------------------
  // Turning directory separators into namespace separators
  // ---------------------------------------------------------------------------

  /** Each directory separator becomes a namespace separator; nothing else
      changes. */
  function SlashesToSeparators(s: string): (r: string)
    ensures |r| == |s|
    ensures Slash !in r
    ensures Slash !in s ==> r == s
    ensures forall k :: 0 <= k < |s| && s[k] == Slash ==> r[k] == Separator
    ensures forall k :: 0 <= k < |s| && s[k] != Slash ==> r[k] == s[k]
  {
    seq(|s|, k requires 0 <= k < |s| => if s[k] == Slash then Separator else s[k])
  }

  /** On a single character: a `/` becomes `\`, any other character stays.
      With SlashesToSeparatorsAppend this determines the replacement on
      every string. */
  lemma SlashesToSeparatorsOne(c: char)
    ensures SlashesToSeparators([c]) == if c == Slash then [Separator] else [c]
  {
  }

  /** The replacement works character by character, so it distributes over
      concatenation. */
  lemma SlashesToSeparatorsAppend(a: string, b: string)
    ensures SlashesToSeparators(a + b) == SlashesToSeparators(a) + SlashesToSeparators(b)
  {
    var l := SlashesToSeparators(a + b);
    var r := SlashesToSeparators(a) + SlashesToSeparators(b);
    assert forall k :: 0 <= k < |a| ==> l[k] == r[k];
    assert forall k :: |a| <= k < |a| + |b| ==> l[k] == r[k];
  }

  // ---------------------------------------------------------------------------
  // The relative pathname as a namespace-relative class name
  // ---------------------------------------------------------------------------

  /** The pathname with `.php` removed and directory separators turned into
      namespace separators, in that order. */
  function ConvertPath(path: string): (r: string)
    ensures Slash !in r
    ensures |r| <= |path|
  {
    SlashesToSeparators(StripPhp(path))
  }

  /** A pathname with neither `.php` nor `/` in it is its own class name, and
      only such a pathname is. */
  lemma ConvertPathUnchangedIff(path: string)
    ensures ConvertPath(path) == path <==> !ContainsPhp(path) && Slash !in path
  {
    if ContainsPhp(path) {
      var k :| 0 <= k <= |path| && PhpAt(path, k);
      StripPhpShrinks(path, k);
    } else {
      StripPhpWithoutPhp(path);
    }
  }

  /** A directory becomes a namespace level: converting `a/b` is converting
      `a` and `b` separately and joining them with a namespace separator. */
  lemma ConvertPathSegments(a: string, b: string)
    ensures ConvertPath(a + [Slash] + b) == ConvertPath(a) + [Separator] + ConvertPath(b)
  {
    assert a + [Slash] + b == a + ([Slash] + b);
    StripPhpAppend(a, [Slash] + b);
    assert !PhpAt([Slash] + b, 0);
    assert ([Slash] + b)[1..] == b;
    assert StripPhp([Slash] + b) == [Slash] + StripPhp(b);
    SlashesToSeparatorsAppend(StripPhp(a), [Slash] + StripPhp(b));
    SlashesToSeparatorsAppend([Slash], StripPhp(b));
  }

  /** Joins `parts` with `sep` between consecutive parts. */
  function Join(parts: seq<string>, sep: char): (r: string)
    ensures |parts| == 1 ==> r == parts[0]
    decreases |parts|
  {
    if |parts| == 0 then []
    else if |parts| == 1 then parts[0]
    else parts[0] + [sep] + Join(parts[1..], sep)
  }

  /** Component-wise reading of the conversion: a pathname made of the
      directory and file names `parts` becomes those names, each with its
      `.php` occurrences deleted, joined by namespace separators. */
  lemma {:induction false} ConvertPathComponentwise(parts: seq<string>)
    requires forall k :: 0 <= k < |parts| ==> Slash !in parts[k]
    ensures ConvertPath(Join(parts, Slash))
         == Join(seq(|parts|, k requires 0 <= k < |parts| => StripPhp(parts[k])), Separator)
    decreases |parts|
  {
    var stripped := seq(|parts|, k requires 0 <= k < |parts| => StripPhp(parts[k]));
    if |parts| == 0 {
    } else if |parts| == 1 {
      StripPhpKeepsOtherCharacters(parts[0], Slash);
      assert Slash !in StripPhp(parts[0]);
    } else {
      var rest := parts[1..];
      ConvertPathComponentwise(rest);
      ConvertPathSegments(parts[0], Join(rest, Slash));
      StripPhpKeepsOtherCharacters(parts[0], Slash);
      assert Slash !in StripPhp(parts[0]);
      assert stripped[1..] == seq(|rest|, k requires 0 <= k < |rest| => StripPhp(rest[k]));
    }
  }

  // ---------------------------------------------------------------------------
  // The candidate class name
  // ---------------------------------------------------------------------------

  /** `prefix` without its trailing separators, one separator, then the
      converted pathname. */
  function Candidate(prefix: string, path: string): (r: string)
    ensures |r| <= |prefix| + 1 + |path|
  {
    TrimSeparators(prefix) + [Separator] + ConvertPath(path)
  }

  /** Exactly one separator joins the prefix to the path: a prefix written
      with or without trailing separators gives the same candidate. */
  lemma CandidateIgnoresTrailingSeparators(prefix: string, n: nat, path: string)
    ensures Candidate(prefix + Separators(n), path) == Candidate(prefix, path)
  {
    TrimSeparatorsAbsorbsTrailing(prefix, n);
  }

  /** The candidate splits back into the trimmed prefix and the converted path:
      the prefix part never ends in a separator, the path part has no `/`. */
  lemma CandidateParts(prefix: string, path: string)
    ensures var t := TrimSeparators(prefix);
            var r := Candidate(prefix, path);
            && r[..|t|] == t
            && (t == [] || t[|t| - 1] != Separator)
            && r[|t|] == Separator
            && r[|t| + 1..] == ConvertPath(path)
            && Slash !in r[|t| + 1..]
  {
  }

  /** A file in a sub-directory resolves into the matching sub-namespace. */
  lemma CandidateSubdirectory(prefix: string, dir: string, rest: string)
    ensures Candidate(prefix, dir + [Slash] + rest)
         == Candidate(prefix, dir) + [Separator] + ConvertPath(rest)
  {
    ConvertPathSegments(dir, rest);
  }

  /** A PHP source file named `name.php` becomes the class name `name`, when
      `name` itself holds neither `.php` nor a directory separator. */
  lemma ConvertPhpFile(name: string)
    requires !ContainsPhp(name) && Slash !in name
    ensures ConvertPath(name + PhpExtension) == name
  {
    StripPhpAppend(name, PhpExtension);
    StripPhpWithoutPhp(name);
    assert PhpAt(PhpExtension, 0);
  }

  /** Worked example of the path part: `Sub/Bar.php` becomes `Sub\Bar`. */
  lemma ConvertPathExampleNested()
    ensures ConvertPath("Sub/Bar.php") == "Sub\\Bar"
  {
    assert "Sub/Bar.php" == "Sub" + [Slash] + ("Bar" + PhpExtension);
    assert "Sub" + [Separator] + "Bar" == "Sub\\Bar";
    ConvertPathSegments("Sub", "Bar" + PhpExtension);
    StripPhpWithoutPhp("Sub");
    ConvertPhpFile("Bar");
  }

  /** Worked example: the prefix `Foo\` with the pathname `Sub/Bar.php` gives
      `Foo\Sub\Bar`. */
  lemma CandidateExampleNested()
    ensures Candidate("Foo\\", "Sub/Bar.php") == "Foo\\Sub\\Bar"
  {
    assert "Foo" + [Separator] + "Sub\\Bar" == "Foo\\Sub\\Bar";
    TrimSeparatorsExample();
    ConvertPathExampleNested();
  }

  /** Worked example of the path part: `.php` inside a directory name goes
      too, so `a.phpx/B.php` becomes `ax\B`. */
  lemma ConvertPathExampleInnerPhp()
    ensures ConvertPath("a.phpx/B.php") == "ax\\B"
  {
    assert "a.phpx/B.php" == "a.phpx" + [Slash] + ("B" + PhpExtension);
    assert "ax" + [Separator] + "B" == "ax\\B";
    ConvertPathSegments("a.phpx", "B" + PhpExtension);
    StripPhpExampleInner();
    ConvertPhpFile("B");
  }

  /** Worked example: `a.phpx/B.php` under the prefix `Foo` gives `Foo\ax\B`. */
  lemma CandidateExampleInnerPhp()
    ensures Candidate("Foo", "a.phpx/B.php") == "Foo\\ax\\B"
  {
    assert "Foo" + [Separator] + "ax\\B" == "Foo\\ax\\B";
    assert TrimSeparators("Foo") == "Foo";
    ConvertPathExampleInnerPhp();
  }
}
