/** The filename builder (`generate_filename`): a description is made
    safe for a file name by turning spaces into underscores and dropping
    both kinds of quote, then placed with the Pixabay identifier under a
    base directory. */
module Filename {
  import opened Text

  /** `s.replace(from, to)` for a one-character pattern. */
  function ReplaceChar(s: string, from: char, to: string): (r: string)
    ensures from !in to ==> from !in r
  {
    if s == [] then []
    else (if s[0] == from then to else [s[0]]) + ReplaceChar(s[1..], from, to)
  }

  /** Replacing one character keeps the count of every character that is
      neither the pattern nor in the replacement; replacing by one character
      keeps the length, and deleting shortens by the count deleted. */
  lemma {:induction false} ReplaceCount(s: string, from: char, to: string, c: char)
    ensures c != from && c !in to ==> Count(ReplaceChar(s, from, to), c) == Count(s, c)
    ensures |to| == 1 ==> |ReplaceChar(s, from, to)| == |s|
    ensures to == [] ==> |ReplaceChar(s, from, to)| == |s| - Count(s, from)
  {
    if s != [] {
      var head := if s[0] == from then to else [s[0]];
      ReplaceCount(s[1..], from, to, c);
      CountAppend(head, ReplaceChar(s[1..], from, to), c);
    }
  }

  /** The safe form of a description, as three replacements applied in
      turn: space to underscore, then every double quote removed, then
      every single quote removed. It holds no space and no quote;
      `SanitizeSafe` gives its length. */
  function Sanitize(description: string): (safe: string)
    ensures ' ' !in safe && '"' !in safe && '\'' !in safe
  {
    var spaced := ReplaceChar(description, ' ', "_");
    var unquoted := ReplaceChar(spaced, '"', "");
    ReplaceCount(spaced, '"', "", ' ');
    ReplaceCount(unquoted, '\'', "", ' ');
    ReplaceCount(unquoted, '\'', "", '"');
    ReplaceChar(unquoted, '\'', "")
  }

  /** The safe form holds no space and no quote, and it is shorter than the
      description by the number of quotes removed. */
  lemma SanitizeSafe(description: string)
    ensures var safe := Sanitize(description);
      && ' ' !in safe && '"' !in safe && '\'' !in safe
      && |safe| == |description| - Count(description, '"') - Count(description, '\'')
  {
    var spaced := ReplaceChar(description, ' ', "_");
    var unquoted := ReplaceChar(spaced, '"', "");
    var safe := ReplaceChar(unquoted, '\'', "");
    ReplaceCount(description, ' ', "_", '"');
    ReplaceCount(description, ' ', "_", '\'');
    ReplaceCount(spaced, '"', "", '\'');
    ReplaceCount(spaced, '"', "", ' ');
    ReplaceCount(unquoted, '\'', "", ' ');
    ReplaceCount(unquoted, '\'', "", '"');
    assert Count(spaced, '"') == Count(description, '"');
    assert Count(unquoted, '\'') == Count(spaced, '\'') == Count(description, '\'');
    assert Count(safe, ' ') == Count(unquoted, ' ') == Count(spaced, ' ') == 0;
    assert Count(safe, '"') == Count(unquoted, '"') == 0;
  }

  /** Reference definition: what each character of a description becomes. */
  function SafeChar(c: char): string {
    if c == ' ' then "_" else if c == '"' || c == '\'' then "" else [c]
  }

  function SafeChars(s: string): string {
    if s == [] then [] else SafeChar(s[0]) + SafeChars(s[1..])
  }

  lemma {:induction false} ReplaceAppend(a: string, b: string, from: char, to: string)
    ensures ReplaceChar(a + b, from, to) == ReplaceChar(a, from, to) + ReplaceChar(b, from, to)
  {
    if a == [] {
      assert a + b == b;
    } else {
      assert (a + b)[0] == a[0];
      assert (a + b)[1..] == a[1..] + b;
      ReplaceAppend(a[1..], b, from, to);
    }
  }

  lemma ReplaceSingle(c: char, from: char, to: string)
    ensures ReplaceChar([c], from, to) == if c == from then to else [c]
  {
    assert [c][1..] == [];
    assert ReplaceChar([c], from, to) == (if c == from then to else [c]) + ReplaceChar([], from, to);
  }

  /** The three chained replacements act character by character. */
  lemma {:induction false} SanitizeCharwise(s: string)
    ensures Sanitize(s) == SafeChars(s)
  {
    if s != [] {
      var c, t := s[0], s[1..];
      var p1 := ReplaceChar([c], ' ', "_");
      var p2 := ReplaceChar(p1, '"', "");
      ReplaceSingle(c, ' ', "_");
      assert ReplaceChar(s, ' ', "_") == p1 + ReplaceChar(t, ' ', "_");
      ReplaceAppend(p1, ReplaceChar(t, ' ', "_"), '"', "");
      ReplaceAppend(p2, ReplaceChar(ReplaceChar(t, ' ', "_"), '"', ""), '\'', "");
      assert ReplaceChar(p2, '\'', "") == SafeChar(c);
      SanitizeCharwise(t);
    }
  }

  lemma {:induction false} ReplaceAbsent(s: string, from: char, to: string)
    requires from !in s
    ensures ReplaceChar(s, from, to) == s
  {
    if s != [] {
      ReplaceAbsent(s[1..], from, to);
      assert [s[0]] + s[1..] == s;
    }
  }

  /** A description is left unchanged exactly when it holds no space and no
      quote. */
  lemma SanitizeFixpoint(s: string)
    ensures Sanitize(s) == s <==> (' ' !in s && '"' !in s && '\'' !in s)
  {
    SanitizeSafe(s);
    if ' ' !in s && '"' !in s && '\'' !in s {
      ReplaceAbsent(s, ' ', "_");
      ReplaceAbsent(s, '"', "");
      ReplaceAbsent(s, '\'', "");
    }
  }

  /** Sanitizing twice is sanitizing once. */
  lemma SanitizeIdempotent(s: string)
    ensures Sanitize(Sanitize(s)) == Sanitize(s)
  {
    SanitizeSafe(s);
    SanitizeFixpoint(Sanitize(s));
  }

  /** Two words joined by a space become the two words joined by an
      underscore. */
  lemma SanitizeTwoWords(a: string, b: string)
    requires ' ' !in a && '"' !in a && '\'' !in a
    requires ' ' !in b && '"' !in b && '\'' !in b
    ensures Sanitize(a + " " + b) == a + "_" + b
  {
    ReplaceAppend(a + " ", b, ' ', "_");
    ReplaceAppend(a, " ", ' ', "_");
    ReplaceSingle(' ', ' ', "_");
    ReplaceAbsent(a, ' ', "_");
    ReplaceAbsent(b, ' ', "_");
    var spaced := a + "_" + b;
    assert ReplaceChar(a + " " + b, ' ', "_") == spaced;
    assert '"' !in spaced && '\'' !in spaced;
    ReplaceAbsent(spaced, '"', "");
    ReplaceAbsent(spaced, '\'', "");
  }

  const Marker: string := "-pixabay-"

  /** `generate_filename(base_path, description, pixabay_id, ext='.png')`:
      `{base}/{safe description}-pixabay-{id}{ext}`. */
  function GenerateFilename(basePath: string, description: string, pixabayId: int, ext: string := ".png"): (path: string)
    ensures basePath + "/" <= path
    ensures |path| > |basePath| + |Marker| + |ext|
  {
    (basePath + "/") + (Sanitize(description) + Marker + IntToString(pixabayId)) + ext
  }

  /** The path starts with the base directory and `/`, ends in the
      extension, and the stem between them starts with the safe description
      and holds no space and no quote. A `/` in the description is kept, so
      the file may lie in a subdirectory of the base directory. */
  lemma FilenameShape(basePath: string, description: string, pixabayId: int, ext: string)
    ensures var path := GenerateFilename(basePath, description, pixabayId, ext);
      && |basePath| + 1 + |ext| <= |path|
      && path[..|basePath| + 1] == basePath + "/"
      && path[|path| - |ext|..] == ext
      && var stem := path[|basePath| + 1..|path| - |ext|];
      && stem[..|Sanitize(description)|] == Sanitize(description)
      && ' ' !in stem && '"' !in stem && '\'' !in stem
  {
    var safe, id := Sanitize(description), IntToString(pixabayId);
    SanitizeSafe(description);
    var stem := safe + Marker + id;
    assert ' ' !in id && '"' !in id && '\'' !in id;
    assert forall k :: 0 <= k < |stem| ==> stem[k] != ' ' && stem[k] != '"' && stem[k] != '\'' by {
      forall k | 0 <= k < |stem|
        ensures stem[k] != ' ' && stem[k] != '"' && stem[k] != '\''
      {
        if k < |safe| {
          assert stem[k] == safe[k];
        } else if k < |safe| + |Marker| {
          assert stem[k] == Marker[k - |safe|];
        } else {
          assert stem[k] == id[k - |safe| - |Marker|];
        }
      }
    }
    SliceMiddle(basePath + "/", stem, ext);
  }

  lemma SliceMiddle(a: string, m: string, e: string)
    ensures var s := a + m + e;
      && s[..|a|] == a && s[|a|..|s| - |e|] == m && s[|s| - |e|..] == e
  {
  }

  /** A stem `safe + "-pixabay-" + digits` splits in exactly one way when the
      trailing part holds no `y`. */
  lemma StemSplit(s1: string, n1: string, s2: string, n2: string)
    requires 'y' !in n1 && 'y' !in n2
    requires s1 + Marker + n1 == s2 + Marker + n2
    ensures s1 == s2 && n1 == n2
  {
    var x := s1 + Marker + n1;
    assert x[|s1| + 7] == 'y' && x[|s2| + 7] == 'y';
    NoYAfterMarker(s1, n1, |s2| + 7);
    NoYAfterMarker(s2, n2, |s1| + 7);
    assert |s1| == |s2|;
    assert s1 == x[..|s1|] && s2 == x[..|s2|];
    assert n1 == x[|x| - |n1|..] && n2 == x[|x| - |n2|..];
  }

  /** Past the `y` of the marker, a stem holds no further `y`. */
  lemma NoYAfterMarker(s: string, n: string, k: int)
    requires 'y' !in n
    ensures |s| + 7 < k < |s + Marker + n| ==> (s + Marker + n)[k] != 'y'
  {
    if |s| + 8 < k < |s + Marker + n| {
      assert (s + Marker + n)[k] == n[k - |s| - 9];
    }
  }

  /** Two files built under the same base directory with the same extension
      collide exactly when they have the same identifier and descriptions
      with the same safe form. In particular distinct identifiers never
      share a path. */
  lemma FilenameInjective(basePath: string, d1: string, i1: int, d2: string, i2: int, ext: string)
    ensures GenerateFilename(basePath, d1, i1, ext) == GenerateFilename(basePath, d2, i2, ext)
        <==> i1 == i2 && Sanitize(d1) == Sanitize(d2)
  {
    var n1, n2 := IntToString(i1), IntToString(i2);
    var s1, s2 := Sanitize(d1), Sanitize(d2);
    var p1 := basePath + "/" + (s1 + Marker + n1) + ext;
    var p2 := basePath + "/" + (s2 + Marker + n2) + ext;
    assert GenerateFilename(basePath, d1, i1, ext) == p1;
    assert GenerateFilename(basePath, d2, i2, ext) == p2;
    if p1 == p2 {
      var k := |basePath| + 1;
      assert p1[k..|p1| - |ext|] == s1 + Marker + n1;
      assert p2[k..|p2| - |ext|] == s2 + Marker + n2;
      StemSplit(s1, n1, s2, n2);
      IntToStringInjective(i1, i2);
    }
  }

  lemma {:induction false} SafeCharsAppend(a: string, b: string)
    ensures SafeChars(a + b) == SafeChars(a) + SafeChars(b)
  {
    if a != [] {
      assert (a + b)[0] == a[0];
      assert (a + b)[1..] == a[1..] + b;
      SafeCharsAppend(a[1..], b);
    } else {
      assert a + b == b;
    }
  }

  lemma SafeCharsSingle(c: char)
    ensures SafeChars([c]) == SafeChar(c)
  {
    assert [c][1..] == [];
  }

  /** Sanitizing works on the description piece by piece. */
  lemma SanitizeAppend(a: string, b: string)
    ensures Sanitize(a + b) == Sanitize(a) + Sanitize(b)
  {
    SanitizeCharwise(a + b);
    SanitizeCharwise(a);
    SanitizeCharwise(b);
    SafeCharsAppend(a, b);
  }

  /** A quote anywhere in a description is dropped: `A "Cat"` and `A Cat`
      get the same file name. */
  lemma SanitizeDropsQuote(a: string, q: char, b: string)
    requires q == '"' || q == '\''
    ensures Sanitize(a + [q] + b) == Sanitize(a + b)
  {
    SanitizeAppend(a + [q], b);
    SanitizeAppend(a, [q]);
    SanitizeAppend(a, b);
    SanitizeCharwise([q]);
    SafeCharsSingle(q);
  }

  /** A space and an underscore at the same place give the same file name,
      so descriptions that differ only there share their files' stems. */
  lemma SanitizeSpaceIsUnderscore(a: string, b: string)
    ensures Sanitize(a + " " + b) == Sanitize(a + "_" + b)
  {
    SanitizeAppend(a + " ", b);
    SanitizeAppend(a, " ");
    SanitizeAppend(a + "_", b);
    SanitizeAppend(a, "_");
    SanitizeCharwise(" ");
    SanitizeCharwise("_");
    SafeCharsSingle(' ');
    SafeCharsSingle('_');
  }
}
