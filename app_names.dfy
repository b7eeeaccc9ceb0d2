/**
 * sanitizeAppName: turns an application name into the stem of its partition
 * file. The regular-expression rewrites `re.sub(r'[...]+', '_', s)` are one
 * function, SubRuns, that replaces every maximal run of characters of a class by
 * a single underscore.
 */
module AppNames {

  /** Python's `\s` on text: exactly the characters for which str.isspace() holds. */
  predicate IsSpace(c: char)
  {
    var n := c as int;
    || 0x09 <= n <= 0x0D || 0x1C <= n <= 0x20 || n == 0x85 || n == 0xA0 || n == 0x1680
    || 0x2000 <= n <= 0x200A || n == 0x2028 || n == 0x2029 || n == 0x202F || n == 0x205F
    || n == 0x3000
  }

  /** The class `[\\/:*?"<>|\s]`: characters that may not appear in a file name. */
  predicate IsUnsafe(c: char)
  {
    || c == '\\' || c == '/' || c == ':' || c == '*' || c == '?' || c == '"' || c == '<' || c == '>' || c == '|'
    || IsSpace(c)
  }

  predicate IsUnderscore(c: char)
  {
    c == '_'
  }

  predicate IsUpper(c: char)
  {
    'A' <= c <= 'Z'
  }

  function LowerChar(c: char): char
  {
    if IsUpper(c) then (c as int + 32) as char else c
  }

  /** str.lower(), for the ASCII letters. */
  function Lower(s: string): (r: string)
    ensures |r| == |s|
    ensures forall i | 0 <= i < |r| :: !IsUpper(r[i])
  {
    seq(|s|, i requires 0 <= i < |s| => LowerChar(s[i]))
  }

  /**
   * `re.sub(r'[class]+', '_', s)`; `inRun` says whether the character before `s`
   * belonged to the class, so that its run has already been written out.
   */
  function SubRuns(s: string, inClass: char -> bool, inRun: bool): string
  {
    if s == [] then []
    else if inClass(s[0]) then (if inRun then [] else "_") + SubRuns(s[1..], inClass, true)
    else [s[0]] + SubRuns(s[1..], inClass, false)
  }

  function StripLeading(s: string): string
  {
    if s != [] && s[0] == '_' then StripLeading(s[1..]) else s
  }

  function StripTrailing(s: string): string
  {
    if s != [] && s[|s| - 1] == '_' then StripTrailing(s[..|s| - 1]) else s
  }

  /** str.strip('_'). */
  function Strip(s: string): string
  {
    StripTrailing(StripLeading(s))
  }

  /** What a partition file name may be: the invariants sanitizeAppName establishes. */
  ghost predicate IsSafeName(r: string)
  {
    && r != []
    && r[0] != '_'
    && r[|r| - 1] != '_'
    && (forall i :: 0 <= i < |r| ==> !IsUnsafe(r[i]) && !IsUpper(r[i]))
    && NoDoubleUnderscore(r)
  }

  /**
   * sanitizeAppName: "unknown" for an empty name; otherwise a non-empty,
   * lower-case name with no unsafe or space character, no leading or trailing
   * underscore and no two underscores in a row.
   */
  function SanitizeAppName(appName: string): (r: string)
    ensures appName == [] ==> r == "unknown"
    ensures IsSafeName(r)
  {
    if appName == [] then "unknown"
    else
      var replaced := SubRuns(Lower(appName), IsUnsafe, false);
      var stripped := Strip(replaced);
      var name := SubRuns(stripped, IsUnderscore, false);
      SanitizeSteps(appName, replaced, stripped, name);
      UnknownIsSafe();
      if name == [] then "unknown" else name
  }

  lemma UnknownIsSafe()
    ensures IsSafeName("unknown")
  {
    var u := "unknown";
    forall i | 0 <= i < |u| ensures !IsUnsafe(u[i]) && !IsUpper(u[i]) {
      assert 'a' <= u[i] <= 'z';
    }
  }

  lemma LowerHasNoUpper(s: string)
    ensures forall c :: c in Lower(s) ==> !IsUpper(c)
  {
    forall c | c in Lower(s) ensures !IsUpper(c) {
      var i :| 0 <= i < |s| && Lower(s)[i] == c;
    }
  }

  lemma SanitizeSteps(appName: string, replaced: string, stripped: string, name: string)
    requires replaced == SubRuns(Lower(appName), IsUnsafe, false)
    requires stripped == Strip(replaced)
    requires name == SubRuns(stripped, IsUnderscore, false)
    ensures name != [] ==> IsSafeName(name)
  {
    LowerHasNoUpper(appName);
    SubRunsChars(Lower(appName), IsUnsafe, false);
    assert forall c :: c in replaced ==> !IsUnsafe(c) && !IsUpper(c);
    StripShape(replaced);
    SubRunsChars(stripped, IsUnderscore, false);
    SubRunsNoDouble(stripped, false);
    if name != [] {
      SubRunsEnds(stripped, IsUnderscore, false);
    }
  }

  // ---------------------------------------------------------------------------
  // Properties of the rewriting steps.

  /** Every character SubRuns writes is an underscore or a character of `s` outside the class. */
  lemma {:induction false} SubRunsChars(s: string, inClass: char -> bool, inRun: bool)
    ensures forall c :: c in SubRuns(s, inClass, inRun) ==> c == '_' || (c in s && !inClass(c))
    decreases |s|
  {
    if s != [] {
      SubRunsChars(s[1..], inClass, inClass(s[0]));
      assert forall c :: c in s[1..] ==> c in s;
    }
  }

  /** No two underscores stand next to each other. */
  ghost predicate NoDoubleUnderscore(r: string)
  {
    forall i :: 0 <= i < |r| - 1 ==> !(r[i] == '_' && r[i + 1] == '_')
  }

  /** After collapsing underscore runs no two underscores are adjacent. */
  lemma {:induction false} SubRunsNoDouble(s: string, inRun: bool)
    ensures NoDoubleUnderscore(SubRuns(s, IsUnderscore, inRun))
    ensures inRun ==> SubRuns(s, IsUnderscore, inRun) == [] || SubRuns(s, IsUnderscore, inRun)[0] != '_'
    decreases |s|
  {
    if s != [] {
      SubRunsNoDouble(s[1..], IsUnderscore(s[0]));
      var r := SubRuns(s, IsUnderscore, inRun);
      var rest := SubRuns(s[1..], IsUnderscore, IsUnderscore(s[0]));
      if !(IsUnderscore(s[0]) && inRun) {
        var head := if IsUnderscore(s[0]) then '_' else s[0];
        assert r == [head] + rest;
        forall i | 0 <= i < |r| - 1 ensures !(r[i] == '_' && r[i + 1] == '_') {
          if i > 0 {
            assert r[i] == rest[i - 1] && r[i + 1] == rest[i];
          }
        }
      }
    }
  }

  /** A string that starts (ends) outside the class and with no underscore keeps its first (last) character. */
  lemma {:induction false} SubRunsEnds(s: string, inClass: char -> bool, inRun: bool)
    requires SubRuns(s, inClass, inRun) != []
    ensures s != []
    ensures s[0] != '_' && !inClass(s[0]) ==> SubRuns(s, inClass, inRun)[0] == s[0]
    ensures s[|s| - 1] != '_' && !inClass(s[|s| - 1]) ==>
      var r := SubRuns(s, inClass, inRun); r[|r| - 1] == s[|s| - 1]
    decreases |s|
  {
    var r := SubRuns(s, inClass, inRun);
    var rest := SubRuns(s[1..], inClass, inClass(s[0]));
    if rest != [] {
      SubRunsEnds(s[1..], inClass, inClass(s[0]));
      assert r[|r| - 1] == rest[|rest| - 1];
    } else if |s| > 1 && s[|s| - 1] != '_' && !inClass(s[|s| - 1]) {
      SubRunsKeeps(s[1..], inClass, inClass(s[0]));
    }
  }

  /** A non-empty string whose last character is outside the class rewrites to a non-empty string. */
  lemma {:induction false} SubRunsKeeps(s: string, inClass: char -> bool, inRun: bool)
    requires s != [] && !inClass(s[|s| - 1])
    ensures SubRuns(s, inClass, inRun) != []
    decreases |s|
  {
    if inClass(s[0]) && |s| > 1 {
      SubRunsKeeps(s[1..], inClass, true);
    }
  }

  /** str.strip('_') keeps only characters of its input and neither starts nor ends with an underscore. */
  lemma StripShape(s: string)
    ensures forall c :: c in Strip(s) ==> c in s
    ensures Strip(s) != [] ==> Strip(s)[0] != '_' && Strip(s)[|Strip(s)| - 1] != '_'
  {
    StripLeadingShape(s);
    StripTrailingShape(StripLeading(s));
  }

  lemma {:induction false} StripLeadingShape(s: string)
    ensures forall c :: c in StripLeading(s) ==> c in s
    ensures StripLeading(s) == [] || StripLeading(s)[0] != '_'
    decreases |s|
  {
    if s != [] && s[0] == '_' {
      StripLeadingShape(s[1..]);
      assert forall c :: c in s[1..] ==> c in s;
    }
  }

  lemma {:induction false} StripTrailingShape(s: string)
    ensures forall c :: c in StripTrailing(s) ==> c in s
    ensures StripTrailing(s) == [] || StripTrailing(s)[|StripTrailing(s)| - 1] != '_'
    ensures s == [] || s[0] != '_' ==> StripTrailing(s) == [] || StripTrailing(s)[0] != '_'
    decreases |s|
  {
    if s != [] && s[|s| - 1] == '_' {
      StripTrailingShape(s[..|s| - 1]);
      assert forall c :: c in s[..|s| - 1] ==> c in s;
    }
  }

  /** str.strip('_') is a slice of its input: only underscores are cut, and only at the two ends. */
  lemma StripSlice(s: string)
    ensures exists i, j | 0 <= i <= j <= |s| ::
      && Strip(s) == s[i..j]
      && (forall k | 0 <= k < i :: s[k] == '_')
      && (forall k | j <= k < |s| :: s[k] == '_')
  {
    var i := StripLeadingSlice(s);
    var t := s[i..];
    var m := StripTrailingSlice(t);
    var j := i + m;
    assert Strip(s) == s[i..j] by {
      assert t[..m] == s[i..j];
    }
    assert forall k | j <= k < |s| :: s[k] == '_' by {
      forall k | j <= k < |s| ensures s[k] == '_' {
        assert s[k] == t[k - i];
      }
    }
  }

  /** StripLeading cuts a prefix of underscores; `i` is its length. */
  lemma {:induction false} StripLeadingSlice(s: string) returns (i: nat)
    ensures i <= |s| && StripLeading(s) == s[i..]
    ensures forall k | 0 <= k < i :: s[k] == '_'
    decreases |s|
  {
    if s != [] && s[0] == '_' {
      var n := StripLeadingSlice(s[1..]);
      i := n + 1;
      assert s[1..][n..] == s[i..];
      forall k | 0 <= k < i ensures s[k] == '_' {
        if k > 0 {
          assert s[k] == s[1..][k - 1];
        }
      }
    } else {
      i := 0;
    }
  }

  /** StripTrailing keeps a prefix, cutting only underscores; `j` is its length. */
  lemma {:induction false} StripTrailingSlice(s: string) returns (j: nat)
    ensures j <= |s| && StripTrailing(s) == s[..j]
    ensures forall k | j <= k < |s| :: s[k] == '_'
    decreases |s|
  {
    if s != [] && s[|s| - 1] == '_' {
      var init := s[..|s| - 1];
      j := StripTrailingSlice(init);
      assert init[..j] == s[..j];
      forall k | j <= k < |s| ensures s[k] == '_' {
        if k < |init| {
          assert s[k] == init[k];
        }
      }
    } else {
      j := |s|;
    }
  }

  // ---------------------------------------------------------------------------
  // What sanitizeAppName computes, in one pass: the words of the lower-cased
  // name (its maximal runs of characters that are neither unsafe nor '_')
  // joined by single underscores.

  /** A character that survives sanitizing: neither unsafe nor an underscore. */
  predicate IsWordChar(c: char)
  {
    !IsUnsafe(c) && c != '_'
  }

  /**
   * The words of `s` joined by single underscores. `started` says that a word
   * has been written; `gap` that a separator has been seen after it.
   */
  function JoinedWords(s: string, gap: bool, started: bool): string
    decreases |s|
  {
    if s == [] then []
    else if !IsWordChar(s[0]) then JoinedWords(s[1..], started, started)
    else (if gap then "_" else "") + [s[0]] + JoinedWords(s[1..], false, true)
  }

  /**
   * sanitizeAppName is the lower-cased name's words joined by single
   * underscores, or "unknown" when the name has no word character.
   */
  lemma SanitizeAsWords(appName: string)
    ensures var w := JoinedWords(Lower(appName), false, false);
      SanitizeAppName(appName) == if w == [] then "unknown" else w
  {
    if appName != [] {
      var replaced := SubRuns(Lower(appName), IsUnsafe, false);
      var stripped := Strip(replaced);
      var name := SubRuns(stripped, IsUnderscore, false);
      SubRunsWords(Lower(appName), IsUnsafe, false, false, false);
      StripWords(replaced);
      SubRunsWords(stripped, IsUnderscore, false, false, false);
      SanitizeSteps(appName, replaced, stripped, name);
      if name != [] {
        SafeNameWords(name, false);
      }
    }
  }

  /** "My App" is filed as "my_app": the space becomes an underscore and both words survive. */
  lemma SanitizeTwoWords()
    ensures SanitizeAppName("My App") == "my_app"
  {
    LowerMyApp();
    SanitizeAsWords("My App");
    JoinedMyApp();
  }

  lemma LowerMyApp()
    ensures Lower("My App") == "my app"
  {
    var l := Lower("My App");
    assert LowerChar('M') == 'm' && LowerChar('A') == 'a';
    assert l[0] == 'm' && l[1] == 'y' && l[2] == ' ' && l[3] == 'a' && l[4] == 'p' && l[5] == 'p';
  }

  lemma JoinedMyApp()
    ensures JoinedWords("my app", false, false) == "my_app"
  {
    var s := "my app";
    assert IsWordChar('m') && IsWordChar('y') && !IsWordChar(' ') && IsWordChar('a') && IsWordChar('p');
    assert s[1..] == "y app" && s[1..][1..] == " app" && s[1..][1..][1..] == "app";
    assert "app"[1..] == "pp" && "pp"[1..] == "p" && "p"[1..] == [];
    assert JoinedWords("app", true, true) == "_app";
    assert JoinedWords(" app", false, true) == "_app";
    assert JoinedWords("y app", false, true) == "y_app";
  }

  /**
   * A run rewrite whose class holds no word character keeps the words and the
   * separations between them: every character outside the class survives, and
   * a run becomes one underscore.
   */
  lemma {:induction false} SubRunsWords(s: string, inClass: char -> bool, inRun: bool, gap: bool, started: bool)
    requires forall c :: inClass(c) ==> !IsWordChar(c)
    requires inRun ==> gap == started
    ensures JoinedWords(SubRuns(s, inClass, inRun), gap, started) == JoinedWords(s, gap, started)
    decreases |s|
  {
    if s != [] {
      var rest := SubRuns(s[1..], inClass, inClass(s[0]));
      if inClass(s[0]) {
        SubRunsWords(s[1..], inClass, true, started, started);
        assert !IsWordChar(s[0]) && !IsWordChar('_');
        if !inRun {
          assert SubRuns(s, inClass, inRun) == "_" + rest;
          assert ("_" + rest)[1..] == rest;
        } else {
          assert SubRuns(s, inClass, inRun) == rest;
        }
      } else if IsWordChar(s[0]) {
        SubRunsWords(s[1..], inClass, false, false, true);
        assert ([s[0]] + rest)[1..] == rest;
      } else {
        SubRunsWords(s[1..], inClass, false, started, started);
        assert ([s[0]] + rest)[1..] == rest;
      }
    }
  }

  /** str.strip('_') keeps the words. */
  lemma StripWords(s: string)
    ensures JoinedWords(Strip(s), false, false) == JoinedWords(s, false, false)
  {
    StripLeadingWords(s);
    StripTrailingWords(StripLeading(s), false, false);
  }

  lemma {:induction false} StripLeadingWords(s: string)
    ensures JoinedWords(StripLeading(s), false, false) == JoinedWords(s, false, false)
    decreases |s|
  {
    if s != [] && s[0] == '_' {
      StripLeadingWords(s[1..]);
    }
  }

  lemma {:induction false} StripTrailingWords(s: string, gap: bool, started: bool)
    ensures JoinedWords(StripTrailing(s), gap, started) == JoinedWords(s, gap, started)
    decreases |s|
  {
    if s != [] && s[|s| - 1] == '_' {
      var init := s[..|s| - 1];
      StripTrailingWords(init, gap, started);
      assert s == init + ['_'];
      TrailingSeparators(init, ['_'], gap, started);
    }
  }

  /** Separators after the last word add nothing. */
  lemma {:induction false} TrailingSeparators(s: string, t: string, gap: bool, started: bool)
    requires forall k | 0 <= k < |t| :: !IsWordChar(t[k])
    ensures JoinedWords(s + t, gap, started) == JoinedWords(s, gap, started)
    decreases |s| + |t|
  {
    if s == [] {
      assert s + t == t;
      if t != [] {
        TrailingSeparators([], t[1..], started, started);
        assert [] + t[1..] == t[1..];
      }
    } else {
      assert (s + t)[1..] == s[1..] + t;
      if IsWordChar(s[0]) {
        TrailingSeparators(s[1..], t, false, true);
      } else {
        TrailingSeparators(s[1..], t, started, started);
      }
    }
  }

  /**
   * A name already in sanitized shape is its own joined words (after a pending
   * separator, the underscore comes first).
   */
  lemma {:induction false} SafeNameWords(r: string, gap: bool)
    requires forall k | 0 <= k < |r| :: !IsUnsafe(r[k])
    requires NoDoubleUnderscore(r)
    requires r == [] || (r[0] != '_' && r[|r| - 1] != '_')
    ensures JoinedWords(r, gap, true) == (if gap && r != [] then "_" else "") + r
    ensures JoinedWords(r, false, false) == r
    decreases |r|, 1
  {
    if r != [] {
      var t := r[1..];
      assert IsWordChar(r[0]) by {
        assert !IsUnsafe(r[0]);
      }
      assert JoinedWords(t, false, true) == t by {
        if t != [] {
          SafeNameWordsTail(r);
        }
      }
      assert r == [r[0]] + t;
    }
  }

  /** The step of SafeNameWords past the first character. */
  lemma {:induction false} SafeNameWordsTail(r: string)
    requires |r| > 1
    requires forall k | 0 <= k < |r| :: !IsUnsafe(r[k])
    requires NoDoubleUnderscore(r)
    requires r[0] != '_' && r[|r| - 1] != '_'
    ensures JoinedWords(r[1..], false, true) == r[1..]
    decreases |r|, 0
  {
    var t := r[1..];
    if r[1] != '_' {
      forall k | 0 <= k < |t| - 1 ensures !(t[k] == '_' && t[k + 1] == '_') {
        assert t[k] == r[k + 1] && t[k + 1] == r[k + 2];
      }
      SafeNameWords(t, false);
    } else {
      var u := r[2..];
      assert !(r[1] == '_' && r[2] == '_');
      forall k | 0 <= k < |u| - 1 ensures !(u[k] == '_' && u[k + 1] == '_') {
        assert u[k] == r[k + 2] && u[k + 1] == r[k + 3];
      }
      SafeNameWords(u, true);
      assert t[1..] == u;
      assert !IsWordChar(t[0]);
      assert JoinedWords(t, false, true) == JoinedWords(u, true, true);
      assert t == "_" + u;
    }
  }

  // ---------------------------------------------------------------------------
  // Idempotence: a sanitized name is its own sanitized name.

  /** A name that is already safe goes through sanitizeAppName unchanged. */
  lemma SafeNameFixed(s: string)
    requires IsSafeName(s)
    ensures SanitizeAppName(s) == s
  {
    assert Lower(s) == s;
    SubRunsIdentity(s, IsUnsafe, false);
    assert StripLeading(s) == s;
    assert StripTrailing(s) == s;
    CollapseIdentity(s, false);
  }

  lemma {:induction false} SubRunsIdentity(s: string, inClass: char -> bool, inRun: bool)
    requires forall c :: c in s ==> !inClass(c)
    ensures SubRuns(s, inClass, inRun) == s
    decreases |s|
  {
    if s != [] {
      assert s[0] in s;
      assert forall c :: c in s[1..] ==> c in s;
      SubRunsIdentity(s[1..], inClass, false);
      assert s == [s[0]] + s[1..];
    }
  }

  lemma {:induction false} CollapseIdentity(s: string, inRun: bool)
    requires NoDoubleUnderscore(s)
    requires inRun ==> s == [] || s[0] != '_'
    ensures SubRuns(s, IsUnderscore, inRun) == s
    decreases |s|
  {
    if s != [] {
      forall i | 0 <= i < |s[1..]| - 1 ensures !(s[1..][i] == '_' && s[1..][i + 1] == '_') {
        assert s[1..][i] == s[i + 1] && s[1..][i + 1] == s[i + 2];
      }
      CollapseIdentity(s[1..], s[0] == '_');
      assert s == [s[0]] + s[1..];
    }
  }

  /** sanitizeAppName is idempotent. */
  lemma SanitizeIdempotent(appName: string)
    ensures SanitizeAppName(SanitizeAppName(appName)) == SanitizeAppName(appName)
  {
    SafeNameFixed(SanitizeAppName(appName));
  }

  /**
   * Names that differ only in letter case share one partition file: the file
   * name of a name is that of its lower-case form.
   */
  lemma CaseVariantsShareFile(appName: string)
    ensures SanitizeAppName(Lower(appName)) == SanitizeAppName(appName)
  {
    assert Lower(Lower(appName)) == Lower(appName);
  }
}
