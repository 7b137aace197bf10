/** The small total functions that turn user input into run parameters:
    the search page-size clamp of `fetch_images_from_pixabay` and the three
    answers read by the script's entry point. */
module Inputs {
  import opened Text

  /** The largest page size the program asks the search service for. */
  const MaxPerPage: int := 20

  /** `min(per_keyword, 20)`: the requested count, capped at 20. */
  function PerPage(perKeyword: int): (n: int)
    ensures n <= MaxPerPage && n <= perKeyword
    ensures n == perKeyword || n == MaxPerPage
  {
    if perKeyword < MaxPerPage then perKeyword else MaxPerPage
  }

  // ---------------------------------------------------------------------
  // Descriptions: `[desc.strip() for desc in user_input.split(',')]`

  function StripAll(pieces: seq<string>): (r: seq<string>)
    ensures |r| == |pieces|
    ensures forall i :: 0 <= i < |r| ==> r[i] == Strip(pieces[i])
  {
    if pieces == [] then [] else [Strip(pieces[0])] + StripAll(pieces[1..])
  }

  /** One description per comma-separated piece of the input, in order:
      description `i` is the `i`-th piece stripped, so it holds no comma and
      no surrounding whitespace. An input without commas gives one
      description; empty pieces are kept. */
  function ParseDescriptions(userInput: string): (descriptions: seq<string>)
    ensures |descriptions| == Count(userInput, ',') + 1
    ensures forall i :: 0 <= i < |descriptions| ==>
      descriptions[i] == Strip(Split(userInput, ',')[i])
    ensures forall i :: 0 <= i < |descriptions| ==>
      ',' !in descriptions[i] && IsStripped(descriptions[i])
  {
    var pieces := Split(userInput, ',');
    var descriptions := StripAll(pieces);
    SplitPartsNoSep(userInput, ',');
    assert forall i :: 0 <= i < |descriptions| ==> ',' !in descriptions[i] && IsStripped(descriptions[i]) by {
      forall i | 0 <= i < |descriptions| ensures ',' !in descriptions[i] && IsStripped(descriptions[i]) {
        StripSpec(pieces[i]);
        var k := |pieces[i]| - |TrimStart(pieces[i])|;
        assert descriptions[i] == pieces[i][k..k + |descriptions[i]|];
      }
    }
    descriptions
  }

  /** A non-empty list of stripped, comma-free descriptions (empty ones
      included) written out with commas, each with any whitespace of its own
      before and after it, reads back as the same list. */
  lemma {:induction false} ParseDescriptionsRoundTrip(descriptions: seq<string>, pre: seq<string>, post: seq<string>)
    requires descriptions != []
    requires |pre| == |descriptions| == |post|
    requires forall i :: 0 <= i < |pre| ==> AllWhitespace(pre[i])
    requires forall i :: 0 <= i < |post| ==> AllWhitespace(post[i])
    requires forall i :: 0 <= i < |descriptions| ==> ',' !in descriptions[i] && IsStripped(descriptions[i])
    ensures ParseDescriptions(Join(Padded(descriptions, pre, post), ',')) == descriptions
  {
    var padded := Padded(descriptions, pre, post);
    forall i | 0 <= i < |padded| ensures ',' !in padded[i] {
      NoCommaInWhitespace(pre[i]);
      NoCommaInWhitespace(post[i]);
      assert padded[i] == pre[i] + descriptions[i] + post[i];
    }
    SplitJoin(padded, ',');
    var r := StripAll(padded);
    assert ParseDescriptions(Join(padded, ',')) == r;
    forall i | 0 <= i < |descriptions| ensures r[i] == descriptions[i] {
      StripPadded(pre[i], descriptions[i], post[i]);
    }
  }

  lemma NoCommaInWhitespace(pad: string)
    requires AllWhitespace(pad)
    ensures ',' !in pad
  {
    assert !IsWhitespace(',');
  }

  /** Two descriptions typed as `first,<whitespace>second` are read back as
      the two. */
  lemma TwoDescriptionsParse(first: string, second: string, pad: string)
    requires AllWhitespace(pad)
    requires ',' !in first && IsStripped(first)
    requires ',' !in second && IsStripped(second)
    ensures ParseDescriptions(first + [','] + (pad + second)) == [first, second]
  {
    var rest := pad + second;
    NoCommaInWhitespace(pad);
    SplitPrefix(first, rest, ',');
    SplitNoSep(rest, ',');
    StripNoOp(first);
    StripPadded(pad, second, []);
    assert pad + second + [] == rest;
    var pieces := Split(first + [','] + rest, ',');
    assert pieces == [first, rest];
    var r := StripAll(pieces);
    assert r[0] == first && r[1] == second;
  }

  /** Each description with its own whitespace before and after it. */
  function Padded(descriptions: seq<string>, pre: seq<string>, post: seq<string>): (r: seq<string>)
    requires |pre| == |descriptions| == |post|
    ensures |r| == |descriptions|
    ensures forall i :: 0 <= i < |r| ==> r[i] == pre[i] + descriptions[i] + post[i]
  {
    seq(|descriptions|, i requires 0 <= i < |descriptions| => pre[i] + descriptions[i] + post[i])
  }

  // ---------------------------------------------------------------------
  // Crop size: `tuple(map(int, s.split('x'))) if 'x' in s else (1200, 628)`

  const DefaultCropSize: seq<int> := [1200, 628]

  /** `parse` applied to every piece; `None` as soon as one piece fails
      (for `int`, Python raises `ValueError`). */
  function ParseEach<T>(pieces: seq<string>, parse: string -> Option<T>): (r: Option<seq<T>>)
    ensures r.Some? <==> forall i :: 0 <= i < |pieces| ==> parse(pieces[i]).Some?
    ensures r.Some? ==> |r.value| == |pieces|
    ensures r.Some? ==> forall i :: 0 <= i < |pieces| ==> parse(pieces[i]) == Some(r.value[i])
  {
    if pieces == [] then Some([])
    else
      var first := parse(pieces[0]);
      var rest := ParseEach(pieces[1..], parse);
      assert forall i :: 1 <= i < |pieces| ==> pieces[i] == pieces[1..][i - 1];
      if first.None? || rest.None? then None
      else
        var r := [first.value] + rest.value;
        assert forall i :: 1 <= i < |pieces| ==> r[i] == rest.value[i - 1];
        Some(r)
  }

  /** The crop size: the default 1200x628 when the input has no `x`;
      otherwise one integer per `x`-separated piece, so at least two, and
      `None` (a `ValueError`) exactly when some piece is not an integer. */
  function ParseCropSize(input: string): (size: Option<seq<int>>)
    ensures 'x' !in input ==> size == Some(DefaultCropSize)
    ensures 'x' in input && size.Some? ==>
      var pieces := Split(input, 'x');
      && |size.value| == |pieces| >= 2
      && forall i :: 0 <= i < |pieces| ==> ParseInt(pieces[i]) == Some(size.value[i])
    ensures size.None? ==>
      'x' in input && exists i :: 0 <= i < |Split(input, 'x')| && ParseInt(Split(input, 'x')[i]).None?
  {
    if 'x' in input then
      var pieces := Split(input, 'x');
      assert Count(input, 'x') != 0;
      var r := ParseEach(pieces, ParseInt);
      assert r.Some? ==> forall i :: 0 <= i < |pieces| ==> ParseInt(pieces[i]) == Some(r.value[i]);
      assert r.None? ==> exists i :: 0 <= i < |pieces| && ParseInt(pieces[i]).None?;
      r
    else Some(DefaultCropSize)
  }

  /** `WxH` written in decimal reads back as `[W, H]`. */
  lemma CropSizeRoundTrip(width: int, height: int)
    ensures ParseCropSize(IntToString(width) + "x" + IntToString(height)) == Some([width, height])
  {
    var w, h := IntToString(width), IntToString(height);
    assert 'x' !in w && 'x' !in h;
    var s := w + "x" + h;
    assert s[|w|] == 'x';
    assert Join([w, h], 'x') == s by {
      assert [w, h][1..] == [h];
    }
    SplitJoin([w, h], 'x');
    IntToStringRoundTrip(width);
    IntToStringRoundTrip(height);
    var r := ParseEach([w, h], ParseInt);
    assert ParseInt([w, h][0]) == Some(width) && ParseInt([w, h][1]) == Some(height);
    assert r.Some? && r.value == [width, height];
  }

  // ---------------------------------------------------------------------
  // Image count: `min(int(s), 20) if s.isdigit() else 1`, s stripped

  const MaxImages: int := 20

  /** `min(n, 20)`: a requested image count, capped at 20. */
  function CappedCount(n: int): (c: int)
    ensures c <= MaxImages && c <= n
    ensures c == n || c == MaxImages
  {
    if n < MaxImages then n else MaxImages
  }

  /** The number of images per description: the answer is stripped
      first; the stripped answer's value, capped at 20, when it is a plain
      digit string, otherwise 1. */
  function ParseNumImages(input: string): (n: int)
    ensures 0 <= n <= MaxImages
    ensures !IsDigits(Strip(input)) ==> n == 1
    ensures IsDigits(Strip(input)) ==>
      ParseInt(Strip(input)).Some? && n == CappedCount(ParseInt(Strip(input)).value)
  {
    var s := Strip(input);
    if IsDigits(s) then
      DigitStringParses(s);
      var v := DigitsValue(s);
      if v < MaxImages then v else MaxImages
    else 1
  }

  /** A count typed in decimal, with any whitespace before and after it, is
      read back capped at 20. */
  lemma NumImagesRoundTrip(n: nat, pre: string, post: string)
    requires AllWhitespace(pre) && AllWhitespace(post)
    ensures ParseNumImages(pre + NatToString(n) + post) == CappedCount(n)
  {
    var s := NatToString(n);
    StripPadded(pre, s, post);
    NatToStringRoundTrip(n);
  }

  /** The three answers of the end-to-end example in general form:
      `first, second`, `WxH` and a decimal count are read as the two
      descriptions, the crop size [W, H] and the count capped at 20
      (`red car, blue car`, `800x400` and `1` is one instance). */
  lemma ExampleAnswers(first: string, second: string, width: int, height: int, count: nat)
    requires ',' !in first && IsStripped(first)
    requires ',' !in second && IsStripped(second)
    ensures ParseDescriptions(first + ", " + second) == [first, second]
    ensures ParseCropSize(IntToString(width) + "x" + IntToString(height)) == Some([width, height])
    ensures ParseNumImages(NatToString(count)) == CappedCount(count)
  {
    TwoDescriptionsParse(first, second, " ");
    assert first + ", " + second == first + [','] + (" " + second);
    CropSizeRoundTrip(width, height);
    NumImagesRoundTrip(count, [], []);
    assert [] + NatToString(count) + [] == NatToString(count);
  }
}
