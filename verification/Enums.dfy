/**
 The Rust enum reader of the conformance inventory: find `pub enum N {`, match its closing
 brace, split the body at depth-zero commas, and read a variant name from each chunk.
 */
module Enums {
  import opened Outcomes

  datatype EnumError = NotFound | Unclosed

  // ----- Character classes -----

  /** Python's white space for text. */
  predicate IsSpace(c: char) {
    var n := c as int;
    || 0x09 <= n <= 0x0D || 0x1C <= n <= 0x20 || n == 0x85 || n == 0xA0 || n == 0x1680
    || 0x2000 <= n <= 0x200A || n == 0x2028 || n == 0x2029 || n == 0x202F || n == 0x205F || n == 0x3000
  }

  predicate IsCapital(c: char) { 'A' <= c <= 'Z' }

  predicate IsWord(c: char) { 'A' <= c <= 'Z' || 'a' <= c <= 'z' || '0' <= c <= '9' || c == '_' }

  predicate Opens(c: char) { c == '{' || c == '(' || c == '[' }

  predicate Closes(c: char) { c == '}' || c == ')' || c == ']' }

  // ----- The body of an enum -----

  function SkipSpace(s: string, i: nat): (j: nat)
    requires i <= |s|
    ensures i <= j <= |s|
    ensures forall k :: i <= k < j ==> IsSpace(s[k])
    ensures j < |s| ==> !IsSpace(s[j])
    decreases |s| - i
  {
    if i < |s| && IsSpace(s[i]) then SkipSpace(s, i + 1) else i
  }

  predicate At(s: string, i: nat, word: string) {
    i + |word| <= |s| && s[i..i + |word|] == word
  }

  /** The position after `pub enum N`, white space and an opening brace at `i`. */
  function HeaderAt(s: string, i: nat, name: string): (r: Option<nat>)
    ensures r.Some? ==> i < r.value <= |s|
  {
    var header := "pub enum " + name;
    if !At(s, i, header) then None
    else
      var j := SkipSpace(s, i + |header|);
      if j < |s| && s[j] == '{' then Some(j + 1) else None
  }

  /** The first header at or after `i`. */
  function FindHeader(s: string, i: nat, name: string): (r: Option<nat>)
    ensures r.Some? ==> i < r.value <= |s|
    decreases |s| - i
  {
    if HeaderAt(s, i, name).Some? then HeaderAt(s, i, name)
    else if i >= |s| then None
    else FindHeader(s, i + 1, name)
  }

  function BraceStep(c: char): int {
    if c == '{' then 1 else if c == '}' then -1 else 0
  }

  /** Opening minus closing braces. */
  function BraceDepth(s: string): int {
    if s == "" then 0 else BraceDepth(s[..|s| - 1]) + BraceStep(s[|s| - 1])
  }

  lemma {:induction false} BraceDepthCounts(s: string)
    ensures BraceDepth(s) == multiset(s)['{'] as int - multiset(s)['}'] as int
  {
    if s != "" {
      BraceDepthCounts(s[..|s| - 1]);
      assert s == s[..|s| - 1] + [s[|s| - 1]];
    }
  }

  function EnumBodyAt(s: string, start: nat, index: nat, depth: int): Result<string, EnumError>
    requires start <= index <= |s|
    decreases |s| - index
  {
    if index == |s| then Err(Unclosed)
    else if s[index] == '}' && depth == 1 then Ok(s[start..index])
    else EnumBodyAt(s, start, index + 1, depth + BraceStep(s[index]))
  }

  function EnumBodyOf(source: string, name: string): Result<string, EnumError> {
    match FindHeader(source, 0, name)
    case None => Err(NotFound)
    case Some(start) => EnumBodyAt(source, start, start, 1)
  }

  /** Braces never close more than they open, and all are closed. */
  ghost predicate BracesBalance(s: string) {
    && BraceDepth(s) == 0
    && forall k :: 0 <= k <= |s| ==> BraceDepth(s[..k]) >= 0
  }

  /** A found body is brace-balanced and is followed by the closing brace of the enum. */
  lemma {:induction false} BodyIsBalanced(s: string, start: nat, index: nat, depth: int)
    requires start <= index <= |s| && depth == 1 + BraceDepth(s[start..index]) && depth >= 1
    requires forall k :: start <= k <= index ==> BraceDepth(s[start..k]) >= 0
    requires EnumBodyAt(s, start, index, depth).Ok?
    ensures
      var body := EnumBodyAt(s, start, index, depth).value;
      && BracesBalance(body)
      && start + |body| < |s| && s[start..start + |body|] == body && s[start + |body|] == '}'
    decreases |s| - index
  {
    if s[index] == '}' && depth == 1 {
      forall k | 0 <= k <= index - start ensures BraceDepth(s[start..index][..k]) >= 0 {
        assert s[start..index][..k] == s[start..start + k];
      }
    } else {
      assert s[start..index + 1][..index - start] == s[start..index];
      BodyIsBalanced(s, start, index + 1, depth + BraceStep(s[index]));
    }
  }

  lemma BraceDepthOfConcat(a: string, b: string)
    ensures BraceDepth(a + b) == BraceDepth(a) + BraceDepth(b)
  {
    if b == "" {
      assert a + b == a;
    } else {
      assert (a + b)[..|a + b| - 1] == a + b[..|b| - 1];
      BraceDepthOfConcat(a, b[..|b| - 1]);
    }
  }

  /** Scanning over a balanced body stops at the brace behind it, whatever follows. */
  lemma {:induction false} BodyIsFound(s: string, start: nat, body: string, index: nat)
    requires start <= index <= start + |body| < |s|
    requires s[start..start + |body|] == body && s[start + |body|] == '}' && BracesBalance(body)
    ensures EnumBodyAt(s, start, index, 1 + BraceDepth(body[..index - start])) == Ok(body)
    decreases |s| - index
  {
    var k := index - start;
    if k == |body| {
      assert body[..k] == body;
    } else {
      assert s[index] == body[k];
      assert body[..k + 1][..k] == body[..k];
      assert BraceDepth(body[..k + 1]) >= 0;
      BodyIsFound(s, start, body, index + 1);
    }
  }

  // ----- What a header is -----

  /** From `i` to `j` stand `pub enum N`, white space and an opening brace. */
  ghost predicate IsHeader(s: string, i: int, j: int, name: string) {
    0 <= i <= j <= |s| && exists gap :: IsBlank(gap) && s[i..j] == "pub enum " + name + gap + "{"
  }

  ghost predicate IsBlank(gap: string) {
    forall c :: c in gap ==> IsSpace(c)
  }

  /** It is the first one of the text. */
  ghost predicate IsFirstHeader(s: string, i: int, j: int, name: string) {
    IsHeader(s, i, j, name) && forall h, e :: h < i ==> !IsHeader(s, h, e, name)
  }

  /** The body of that enum: balanced text up to the brace that closes it. */
  ghost predicate IsBodyAt(s: string, start: int, body: string) {
    && 0 <= start && start + |body| < |s|
    && s[start..start + |body|] == body && s[start + |body|] == '}' && BracesBalance(body)
  }

  lemma HeaderIsExact(s: string, i: nat, name: string, j: nat)
    ensures HeaderAt(s, i, name) == Some(j) <==> IsHeader(s, i, j, name)
  {
    if HeaderAt(s, i, name) == Some(j) {
      FoundHeader(s, i, name, j);
    }
    if IsHeader(s, i, j, name) {
      var gap :| IsBlank(gap) && s[i..j] == "pub enum " + name + gap + "{";
      hide HeaderAt, IsBlank;
      HeaderIsHere(s, i, name, gap);
    }
  }

  lemma FoundHeader(s: string, i: nat, name: string, j: nat)
    requires HeaderAt(s, i, name) == Some(j)
    ensures IsHeader(s, i, j, name)
  {
    var header := "pub enum " + name;
    var from := i + |header|;
    assert s[i..from] == header && j == SkipSpace(s, from) + 1 <= |s| && s[j - 1] == '{';
    BlankSlice(s, from, j - 1);
    hide HeaderAt, SkipSpace, IsBlank;
    assert s[i..j] == s[i..from] + s[from..j - 1] + [s[j - 1]];
    assert s[i..j] == "pub enum " + name + s[from..j - 1] + "{";
  }

  lemma BlankSlice(s: string, i: nat, j: nat)
    requires i <= j <= |s| && forall k :: i <= k < j ==> IsSpace(s[k])
    ensures IsBlank(s[i..j])
  {}

  lemma HeaderIsHere(source: string, i: nat, name: string, gap: string)
    requires IsBlank(gap)
    requires i + |"pub enum " + name + gap + "{"| <= |source|
    requires source[i..i + |"pub enum " + name + gap + "{"|] == "pub enum " + name + gap + "{"
    ensures HeaderAt(source, i, name) == Some(i + |"pub enum " + name + gap + "{"|)
  {
    var header := "pub enum " + name;
    var all := header + gap + "{";
    assert forall k :: 0 <= k < |all| ==> source[i + k] == source[i..i + |all|][k] == all[k];
    assert header == all[..|header|];
    SliceOfSlice(source, i, i + |all|, 0, |header|);
    var j := i + |header| + |gap|;
    forall k | i + |header| <= k < j ensures IsSpace(source[k]) {
      assert source[k] == all[k - i] == gap[k - i - |header|];
      assert gap[k - i - |header|] in gap;
    }
    assert source[j] == all[j - i] == '{';
    SkipSpaceIs(source, i + |header|, j);
  }

  lemma {:induction false} SkipSpaceIs(s: string, i: nat, j: nat)
    requires i <= j <= |s| && (forall k :: i <= k < j ==> IsSpace(s[k])) && (j < |s| ==> !IsSpace(s[j]))
    ensures SkipSpace(s, i) == j
    decreases j - i
  {
    if i < j {
      SkipSpaceIs(s, i + 1, j);
    }
  }

  ghost predicate IsFirstFrom(s: string, i: int, at: int, j: int, name: string) {
    i <= at && IsHeader(s, at, j, name) && forall h, e :: i <= h < at ==> !IsHeader(s, h, e, name)
  }

  /** The search returns the end of the first header at or after `i`, and none exactly when
      there is none. */
  lemma {:induction false} FirstHeaderFrom(s: string, i: nat, name: string)
    requires i <= |s|
    ensures
      var found := FindHeader(s, i, name);
      if found.Some? then exists at :: IsFirstFrom(s, i, at, found.value, name)
      else forall h, e :: i <= h ==> !IsHeader(s, h, e, name)
    decreases |s| - i
  {
    hide HeaderAt, IsHeader;
    var here := HeaderAt(s, i, name);
    if here.Some? {
      HeaderIsExact(s, i, name, here.value);
      assert IsFirstFrom(s, i, i, here.value, name);
    } else {
      forall e ensures !IsHeader(s, i, e, name) {
        NoHeaderHere(s, i, name, e);
      }
      if i < |s| {
        FirstHeaderFrom(s, i + 1, name);
        assert FindHeader(s, i, name) == FindHeader(s, i + 1, name);
        if FindHeader(s, i + 1, name).Some? {
          var j := FindHeader(s, i + 1, name).value;
          var at :| IsFirstFrom(s, i + 1, at, j, name);
          assert IsFirstFrom(s, i, at, j, name);
        }
      } else {
        forall h, e | i < h ensures !IsHeader(s, h, e, name) {
          NoHeaderBeyond(s, h, e, name);
        }
      }
    }
  }

  lemma NoHeaderHere(s: string, i: nat, name: string, e: int)
    requires HeaderAt(s, i, name).None?
    ensures !IsHeader(s, i, e, name)
  {
    if e >= 0 {
      HeaderIsExact(s, i, name, e);
    }
  }

  lemma NoHeaderBeyond(s: string, h: int, e: int, name: string)
    requires h > |s|
    ensures !IsHeader(s, h, e, name)
  {}

  /** A first header ends in one place. */
  lemma OneFirstHeader(s: string, i: int, j: int, i': int, j': int, name: string)
    requires IsFirstHeader(s, i, j, name) && IsFirstHeader(s, i', j', name)
    ensures i == i' && j == j'
  {
    assert i == i';
    HeaderIsExact(s, i, name, j);
    HeaderIsExact(s, i, name, j');
  }

  /** What the reader of an enum body returns: nothing without a header, the balanced text
      behind the first header if its brace is closed, and an error if it is not. */
  ghost predicate IsEnumBody(source: string, name: string, r: Result<string, EnumError>) {
    if r.Ok? then exists i, start :: IsFirstHeader(source, i, start, name) && IsBodyAt(source, start, r.value)
    else if r.error.NotFound? then forall i, j :: !IsHeader(source, i, j, name)
    else exists i, start :: IsFirstHeader(source, i, start, name) && HasNoBody(source, start)
  }

  ghost predicate HasNoBody(s: string, start: int) {
    forall body :: !IsBodyAt(s, start, body)
  }

  lemma EnumBodyIsExact(source: string, name: string)
    ensures IsEnumBody(source, name, EnumBodyOf(source, name))
  {
    hide IsHeader, IsBodyAt, FindHeader, EnumBodyAt;
    FirstHeaderFrom(source, 0, name);
    forall h, e | h < 0 ensures !IsHeader(source, h, e, name) {
      NoHeaderBefore(source, h, e, name);
    }
    if FindHeader(source, 0, name).Some? {
      var start := FindHeader(source, 0, name).value;
      var i :| IsFirstFrom(source, 0, i, start, name);
      assert IsFirstHeader(source, i, start, name);
      BodyIsExact(source, start);
    }
  }

  lemma NoHeaderBefore(s: string, h: int, e: int, name: string)
    requires h < 0
    ensures !IsHeader(s, h, e, name)
  {}

  lemma BodyIsExact(s: string, start: nat)
    requires start <= |s|
    ensures
      var r := EnumBodyAt(s, start, start, 1);
      if r.Ok? then IsBodyAt(s, start, r.value) else r.error == Unclosed && HasNoBody(s, start)
  {
    assert s[start..start] == "";
    assert BraceDepth("") == 0;
    hide BraceDepth, BracesBalance;
    if EnumBodyAt(s, start, start, 1).Ok? {
      BodyIsBalanced(s, start, start, 1);
    } else {
      OnlyUnclosed(s, start, start, 1);
      forall body | IsBodyAt(s, start, body) ensures false {
        assert body[..0] == "";
        BodyIsFound(s, start, body, start);
      }
    }
  }

  lemma {:induction false} OnlyUnclosed(s: string, start: nat, index: nat, depth: int)
    requires start <= index <= |s| && EnumBodyAt(s, start, index, depth).Err?
    ensures EnumBodyAt(s, start, index, depth) == Err(Unclosed)
    decreases |s| - index
  {
    if index < |s| {
      OnlyUnclosed(s, start, index + 1, depth + BraceStep(s[index]));
    }
  }

  /** There is only one such answer. */
  lemma EnumBodyIsUnique(source: string, name: string, r: Result<string, EnumError>)
    requires IsEnumBody(source, name, r)
    ensures r == EnumBodyOf(source, name)
  {
    EnumBodyIsExact(source, name);
    var q := EnumBodyOf(source, name);
    hide IsHeader, IsBodyAt, EnumBodyOf;
    if q.Ok? || q.error == Unclosed {
      var i, start :| IsFirstHeader(source, i, start, name)
                      && (if q.Ok? then IsBodyAt(source, start, q.value) else HasNoBody(source, start));
      if r.Ok? || r.error == Unclosed {
        var i', start' :| IsFirstHeader(source, i', start', name)
                          && (if r.Ok? then IsBodyAt(source, start', r.value) else HasNoBody(source, start'));
        OneFirstHeader(source, i, start, i', start', name);
        if q.Ok? && r.Ok? {
          OneBody(source, start, q.value, r.value);
        }
      }
    }
  }

  lemma OneBody(s: string, start: int, a: string, b: string)
    requires IsBodyAt(s, start, a) && IsBodyAt(s, start, b)
    ensures a == b
  {
    assert a[..0] == "" && b[..0] == "";
    BodyIsFound(s, start, a, start);
    BodyIsFound(s, start, b, start);
  }

  /** The brace-counting loop of the source. */
  method EnumBody(source: string, name: string) returns (r: Result<string, EnumError>)
    ensures r == EnumBodyOf(source, name)
    ensures IsEnumBody(source, name, r)
  {
    EnumBodyIsExact(source, name);
    hide IsEnumBody;
    var header := FindHeader(source, 0, name);
    if header.None? {
      return Err(NotFound);
    }
    var start := header.value;
    var depth := 1;
    for index := start to |source|
      invariant EnumBodyAt(source, start, index, depth) == EnumBodyAt(source, start, start, 1)
    {
      var character := source[index];
      if character == '{' {
        depth := depth + 1;
      } else if character == '}' {
        depth := depth - 1;
        if depth == 0 {
          return Ok(source[start..index]);
        }
      }
    }
    return Err(Unclosed);
  }

  // ----- Splitting at depth-zero commas -----

  function NestStep(c: char): int {
    if Opens(c) then 1 else if Closes(c) then -1 else 0
  }

  /** Opening minus closing brackets of all three kinds. */
  function Nesting(s: string): int {
    if s == "" then 0 else Nesting(s[..|s| - 1]) + NestStep(s[|s| - 1])
  }

  lemma {:induction false} NestingCounts(s: string)
    ensures
      var m := multiset(s);
      Nesting(s) == (m['{'] + m['('] + m['[']) as int - (m['}'] + m[')'] + m[']']) as int
  {
    if s != "" {
      NestingCounts(s[..|s| - 1]);
      assert s == s[..|s| - 1] + [s[|s| - 1]];
    }
  }

  function ChunksFrom(body: string, start: nat, index: nat, depth: int): seq<string>
    requires start <= index <= |body|
    decreases |body| - index
  {
    if index == |body| then [body[start..]]
    else if body[index] == ',' && depth == 0 then
      [body[start..index]] + ChunksFrom(body, index + 1, index + 1, depth)
    else ChunksFrom(body, start, index + 1, depth + NestStep(body[index]))
  }

  function ChunksOf(body: string): seq<string> {
    ChunksFrom(body, 0, 0, 0)
  }

  method Chunks(body: string) returns (chunks: seq<string>)
    ensures chunks == ChunksOf(body)
  {
    chunks := [];
    var chunkStart, depth := 0, 0;
    for index := 0 to |body|
      invariant chunkStart <= index
      invariant chunks + ChunksFrom(body, chunkStart, index, depth) == ChunksOf(body)
    {
      var character := body[index];
      if Opens(character) {
        depth := depth + 1;
      } else if Closes(character) {
        depth := depth - 1;
      } else if character == ',' && depth == 0 {
        assert chunks + ([body[chunkStart..index]] + ChunksFrom(body, index + 1, index + 1, depth))
            == (chunks + [body[chunkStart..index]]) + ChunksFrom(body, index + 1, index + 1, depth);
        chunks := chunks + [body[chunkStart..index]];
        chunkStart := index + 1;
      }
    }
    chunks := chunks + [body[chunkStart..]];
  }

  function Join(chunks: seq<string>): string {
    if chunks == [] then ""
    else if |chunks| == 1 then chunks[0]
    else chunks[0] + "," + Join(chunks[1..])
  }

  /** No comma of the chunk stands at depth zero. */
  ghost predicate NoBareComma(chunk: string) {
    forall j :: 0 <= j < |chunk| && chunk[j] == ',' ==> Nesting(chunk[..j]) != 0
  }

  /** The cuts between the chunks are exactly the depth-zero commas of the joined text. */
  ghost predicate CutsAreBareCommas(chunks: seq<string>) {
    && chunks != []
    && (forall k :: 0 <= k < |chunks| ==> NoBareComma(chunks[k]))
    && (forall k :: 0 <= k < |chunks| - 1 ==> Nesting(chunks[k]) == 0)
  }

  /** No comma from `start` to `index` is at depth zero. */
  ghost predicate NoCutYet(body: string, start: nat, index: nat)
    requires start <= index <= |body|
  {
    forall j :: start <= j < index && body[j] == ',' ==> Nesting(body[start..j]) != 0
  }

  /** The splitter, with the depth that it has reached. */
  ghost function ChunksOnward(body: string, start: nat, index: nat): seq<string>
    requires start <= index <= |body|
  {
    ChunksFrom(body, start, index, Nesting(body[start..index]))
  }

  lemma ChunksUnfold(body: string, start: nat, index: nat)
    requires start <= index < |body|
    ensures
      var cuts := body[index] == ',' && Nesting(body[start..index]) == 0;
      ChunksOnward(body, start, index) ==
        if cuts then [body[start..index]] + ChunksOnward(body, index + 1, index + 1)
        else ChunksOnward(body, start, index + 1)
  {
    NestingStep(body, start, index);
    assert body[index + 1..index + 1] == "";
    assert Nesting("") == 0;
    hide Nesting;
  }

  lemma {:induction false} ChunksFromAreCut(body: string, start: nat, index: nat)
    requires start <= index <= |body| && NoCutYet(body, start, index)
    ensures CutsAreBareCommas(ChunksOnward(body, start, index))
    ensures Join(ChunksOnward(body, start, index)) == body[start..]
    decreases |body| - index
  {
    hide NoBareComma, CutsAreBareCommas, Join, Nesting, ChunksOnward;
    if index == |body| {
      LastChunk(body, start);
      LastOnward(body, start);
    } else {
      ChunksUnfold(body, start, index);
      if body[index] == ',' && Nesting(body[start..index]) == 0 {
        ChunksFromAreCut(body, index + 1, index + 1);
        CutHere(body, start, index, ChunksOnward(body, index + 1, index + 1));
      } else {
        ChunksFromAreCut(body, start, index + 1);
      }
    }
  }

  lemma LastOnward(body: string, start: nat)
    requires start <= |body|
    ensures ChunksOnward(body, start, |body|) == [body[start..]]
  {
    hide Nesting;
  }

  lemma LastChunk(body: string, start: nat)
    requires start <= |body|
    requires forall j :: start <= j < |body| && body[j] == ',' ==> Nesting(body[start..j]) != 0
    ensures CutsAreBareCommas([body[start..]]) && Join([body[start..]]) == body[start..]
  {
    hide NoBareComma, CutsAreBareCommas, Join, Nesting;
    OneChunk(body[start..]);
    assert body[start..|body|] == body[start..];
    SliceHasNoBareComma(body, start, |body|);
  }

  lemma SliceHasNoBareComma(body: string, start: nat, end: nat)
    requires start <= end <= |body|
    requires forall j :: start <= j < end && body[j] == ',' ==> Nesting(body[start..j]) != 0
    ensures NoBareComma(body[start..end])
  {
    var chunk := body[start..end];
    forall j | 0 <= j < |chunk| && chunk[j] == ',' ensures Nesting(chunk[..j]) != 0 {
      assert body[start + j] == ',';
      assert chunk[..j] == body[start..start + j];
    }
  }

  lemma CutHere(body: string, start: nat, index: nat, rest: seq<string>)
    requires start <= index < |body| && body[index] == ',' && Nesting(body[start..index]) == 0
    requires forall j :: start <= j < index && body[j] == ',' ==> Nesting(body[start..j]) != 0
    requires CutsAreBareCommas(rest) && Join(rest) == body[index + 1..]
    ensures CutsAreBareCommas([body[start..index]] + rest) && Join([body[start..index]] + rest) == body[start..]
  {
    hide CutsAreBareCommas, Join, Nesting;
    SliceHasNoBareComma(body, start, index);
    PrependChunk(body[start..index], rest);
    assert body[start..] == body[start..index] + "," + body[index + 1..];
  }

  lemma NestingStep(body: string, start: nat, index: nat)
    requires start <= index < |body|
    ensures Nesting(body[start..index + 1]) == Nesting(body[start..index]) + NestStep(body[index])
  {
    assert body[start..index + 1][..index - start] == body[start..index];
  }

  lemma OneChunk(chunk: string)
    ensures NoBareComma(chunk) ==> CutsAreBareCommas([chunk])
    ensures Join([chunk]) == chunk
  {}

  lemma PrependChunk(chunk: string, rest: seq<string>)
    requires NoBareComma(chunk) && Nesting(chunk) == 0 && CutsAreBareCommas(rest)
    ensures CutsAreBareCommas([chunk] + rest) && Join([chunk] + rest) == chunk + "," + Join(rest)
  {
    assert ([chunk] + rest)[1..] == rest;
  }

  /** The chunks joined by commas give back the body, and the cuts are exactly the commas at
      depth zero. */
  lemma ChunksAreCut(body: string)
    ensures CutsAreBareCommas(ChunksOf(body)) && Join(ChunksOf(body)) == body
  {
    assert body[0..0] == "" && body[0..] == body;
    assert Nesting("") == 0;
    hide CutsAreBareCommas, Join, Nesting, ChunksFrom;
    ChunksFromAreCut(body, 0, 0);
  }

  /** The splitter walks over the rest of the first chunk. */
  lemma {:induction false} FirstChunk(body: string, start: nat, index: nat, end: nat)
    requires start <= index <= end <= |body|
    requires NoBareComma(body[start..end])
    ensures ChunksFrom(body, start, index, Nesting(body[start..index]))
         == ChunksFrom(body, start, end, Nesting(body[start..end]))
    decreases end - index
  {
    if index < end {
      assert body[start..index + 1][..index - start] == body[start..index];
      assert body[start..end][..index - start] == body[start..index];
      assert body[start..end][index - start] == body[index];
      FirstChunk(body, start, index + 1, end);
    }
  }

  lemma {:induction false} SplitFrom(body: string, start: nat, chunks: seq<string>)
    requires start <= |body| && CutsAreBareCommas(chunks) && body[start..] == Join(chunks)
    ensures ChunksFrom(body, start, start, 0) == chunks
    decreases |chunks|
  {
    var chunk := chunks[0];
    var end := start + |chunk|;
    assert body[start..start] == "";
    if |chunks| == 1 {
      assert end == |body| && body[start..end] == chunk;
      FirstChunk(body, start, start, end);
    } else {
      var rest := chunks[1..];
      var tail := Join(rest);
      assert body[start..] == chunk + "," + tail;
      assert body[start..end] == chunk by { assert body[start..][..|chunk|] == chunk; }
      assert body[end] == ',' by { assert body[start..][|chunk|] == ','; }
      assert body[end + 1..] == tail by { assert body[start..][|chunk| + 1..] == tail; }
      FirstChunk(body, start, start, end);
      assert CutsAreBareCommas(rest);
      SplitFrom(body, end + 1, rest);
    }
  }

  /** Splitting is the inverse of joining on such chunks, so it is the only such splitting. */
  lemma SplitInvertsJoin(chunks: seq<string>)
    requires CutsAreBareCommas(chunks)
    ensures ChunksOf(Join(chunks)) == chunks
  {
    var body := Join(chunks);
    assert body[0..] == body;
    SplitFrom(body, 0, chunks);
  }

  // ----- Reading a variant name -----

  function TrimEnd(s: string): string {
    if s != "" && IsSpace(s[|s| - 1]) then TrimEnd(s[..|s| - 1]) else s
  }

  function Strip(s: string): string {
    TrimEnd(s[SkipSpace(s, 0)..])
  }

  function WordEnd(s: string, i: nat): (j: nat)
    requires i <= |s|
    ensures i <= j <= |s|
    decreases |s| - i
  {
    if i < |s| && IsWord(s[i]) then WordEnd(s, i + 1) else i
  }

  /** A capitalised word after white space at `i`, followed by a payload or by the end. */
  function VariantAt(s: string, i: nat): Option<string>
    requires i <= |s|
  {
    var from := SkipSpace(s, i);
    if from == |s| || !IsCapital(s[from]) then None
    else
      var to := WordEnd(s, from + 1);
      var next := SkipSpace(s, to);
      if next == |s| || s[next] == '{' || s[next] == '(' then Some(s[from..to]) else None
  }

  /** The first variant after a newline at or after `i`. */
  function VariantAfterNewline(s: string, i: nat): Option<string>
    requires i <= |s|
    decreases |s| - i
  {
    if i == |s| then None
    else if s[i] == '\n' && VariantAt(s, i + 1).Some? then VariantAt(s, i + 1)
    else VariantAfterNewline(s, i + 1)
  }

  /** The leftmost match of the variant expression: at the start, or after a newline. */
  function FindVariant(s: string): Option<string> {
    if VariantAt(s, 0).Some? then VariantAt(s, 0) else VariantAfterNewline(s, 0)
  }

  function NamesOf(chunks: seq<string>): seq<string> {
    if chunks == [] then []
    else
      var found := FindVariant(Strip(chunks[|chunks| - 1]));
      NamesOf(chunks[..|chunks| - 1]) + if found.Some? then [found.value] else []
  }

  function EnumVariantsOf(source: string, name: string): Result<seq<string>, EnumError> {
    var body :- EnumBodyOf(source, name);
    Ok(NamesOf(ChunksOf(body)))
  }

  method EnumVariants(source: string, name: string) returns (r: Result<seq<string>, EnumError>)
    ensures r == EnumVariantsOf(source, name)
    ensures r.Err? ==> IsEnumBody(source, name, Err(r.error))
    ensures r.Ok? ==> exists chunks ::
              CutsAreBareCommas(chunks) && IsEnumBody(source, name, Ok(Join(chunks))) && r.value == NamesOf(chunks)
  {
    hide IsEnumBody, CutsAreBareCommas, Join, FindVariant, Strip;
    var found := EnumBody(source, name);
    if found.Err? {
      return Err(found.error);
    }
    var chunks := Chunks(found.value);
    ChunksAreCut(found.value);
    var variants := [];
    for k := 0 to |chunks|
      invariant variants == NamesOf(chunks[..k])
    {
      assert chunks[..k + 1][..k] == chunks[..k];
      var variant := FindVariant(Strip(chunks[k]));
      if variant.Some? {
        variants := variants + [variant.value];
      }
    }
    assert chunks[..|chunks|] == chunks;
    return Ok(variants);
  }

  // ----- Rendering enums -----

  /** One item of an enum body: a variant, or white space such as after a trailing comma.
      The lead holds documentation and attributes, the tail an optional payload. */
  datatype Item = Declared(lead: string, name: string, tail: string) | Filler(space: string)

  function TextOf(item: Item): string {
    match item
    case Declared(lead, name, tail) => lead + name + tail
    case Filler(space) => space
  }

  ghost predicate IsLineStart(s: string, i: int) {
    0 <= i <= |s| && (i == 0 || s[i - 1] == '\n')
  }

  /** The name is a capitalised word at the start of its own line, and no earlier line of the
      lead starts with a capital. */
  ghost predicate IsHead(lead: string, name: string) {
    && name != "" && IsCapital(name[0]) && (forall c :: c in name ==> IsWord(c))
    && (exists i :: IsLineStart(lead, i) && SkipSpace(lead, i) == |lead|)
    && (forall i :: IsLineStart(lead, i) && SkipSpace(lead, i) < |lead| ==> !IsCapital(lead[SkipSpace(lead, i)]))
  }

  /** After white space, the tail is empty or starts with a brace or parenthesis. */
  ghost predicate IsTail(tail: string) {
    var j := SkipSpace(tail, 0);
    j == |tail| || tail[j] == '{' || tail[j] == '('
  }

  ghost predicate IsDeclaration(lead: string, name: string, tail: string) {
    IsHead(lead, name) && IsTail(tail)
  }

  ghost predicate IsItem(item: Item) {
    && (match item
        case Declared(lead, name, tail) => IsDeclaration(lead, name, tail)
        case Filler(space) => forall c :: c in space ==> IsSpace(c))
    && BracesBalance(TextOf(item)) && Nesting(TextOf(item)) == 0 && NoBareComma(TextOf(item))
  }

  function Texts(items: seq<Item>): seq<string> {
    seq(|items|, k requires 0 <= k < |items| => TextOf(items[k]))
  }

  function DeclaredNames(items: seq<Item>): seq<string> {
    if items == [] then []
    else
      var last := items[|items| - 1];
      DeclaredNames(items[..|items| - 1]) + if last.Declared? then [last.name] else []
  }

  /** `pub enum N { item, ..., item }`. */
  function Render(name: string, gap: string, items: seq<Item>): string {
    "pub enum " + name + gap + "{" + Join(Texts(items)) + "}"
  }

  // ----- Reading back a rendered enum -----

  lemma {:induction false} TrimmedEnd(s: string) returns (b: nat)
    ensures b <= |s| && TrimEnd(s) == s[..b]
    ensures forall k :: b <= k < |s| ==> IsSpace(s[k])
    ensures b == 0 || !IsSpace(s[b - 1])
  {
    if s != "" && IsSpace(s[|s| - 1]) {
      b := TrimmedEnd(s[..|s| - 1]);
      assert s[..|s| - 1][..b] == s[..b];
    } else {
      b := |s|;
      assert s[..b] == s;
    }
  }

  lemma {:induction false} WordEndIs(s: string, i: nat, j: nat)
    requires i <= j <= |s| && (forall k :: i <= k < j ==> IsWord(s[k])) && (j < |s| ==> !IsWord(s[j]))
    ensures WordEnd(s, i) == j
    decreases j - i
  {
    if i < j {
      WordEndIs(s, i + 1, j);
    }
  }

  /** Stripping shifts positions and loses nothing but outer white space. */
  lemma SkipSpaceInSlice(s: string, a: nat, b: nat, i: nat)
    requires a + i <= b <= |s| && forall k :: b <= k < |s| ==> IsSpace(s[k])
    ensures
      var j := SkipSpace(s, a + i);
      if j < b then SkipSpace(s[a..b], i) == j - a else SkipSpace(s[a..b], i) == b - a && j == |s|
  {
    var j := SkipSpace(s, a + i);
    if j < b {
      SkipSpaceIs(s[a..b], i, j - a);
    } else {
      SkipSpaceIs(s[a..b], i, b - a);
    }
  }

  lemma {:induction false} WordEndInSlice(s: string, a: nat, b: nat, i: nat)
    requires a + i <= b <= |s| && forall k :: b <= k < |s| ==> IsSpace(s[k])
    ensures WordEnd(s, a + i) == a + WordEnd(s[a..b], i) <= b
    decreases b - a - i
  {
    if a + i < b && IsWord(s[a + i]) {
      WordEndInSlice(s, a, b, i + 1);
    } else if a + i == b && b < |s| {
      assert IsSpace(s[b]);
    }
  }

  lemma SliceOfSlice(s: string, a: nat, b: nat, i: nat, j: nat)
    requires a <= b <= |s| && i <= j <= b - a
    ensures s[a..b][i..j] == s[a + i..a + j]
  {
    var left, right := s[a..b][i..j], s[a + i..a + j];
    assert |left| == |right| && forall k :: 0 <= k < j - i ==> left[k] == right[k];
  }

  lemma VariantInSlice(s: string, a: nat, b: nat, i: nat)
    requires a + i <= b <= |s| && forall k :: b <= k < |s| ==> IsSpace(s[k])
    ensures VariantAt(s[a..b], i) == VariantAt(s, a + i)
  {
    hide SkipSpace, WordEnd, IsSpace;
    SkipSpaceInSlice(s, a, b, i);
    var from := SkipSpace(s, a + i);
    if from < b && IsCapital(s[from]) {
      WordEndInSlice(s, a, b, from + 1 - a);
      var to := WordEnd(s, from + 1);
      SkipSpaceInSlice(s, a, b, to - a);
      SliceOfSlice(s, a, b, from - a, to - a);
    }
  }

  /** The word at `i` is read exactly when a payload or nothing follows it. */
  lemma VariantHere(text: string, i: nat, name: string, tail: string)
    requires name != "" && IsCapital(name[0]) && (forall c :: c in name ==> IsWord(c))
    requires tail != "" ==> !IsWord(tail[0])
    requires i <= |text| && text[SkipSpace(text, i)..] == name + tail
    ensures VariantAt(text, i) == if IsTail(tail) then Some(name) else None
  {
    var from := SkipSpace(text, i);
    var rest := text[from..];
    var to, next := from + |name|, SkipSpace(tail, 0);
    assert |text| == to + |tail|;
    assert text[from] == rest[0] == name[0];
    TailAt(tail);
    hide SkipSpace, WordEnd, IsTail, IsSpace, IsWord;
    forall k | from <= k < to ensures IsWord(text[k]) {
      assert text[k] == rest[k - from] == name[k - from];
    }
    assert to < |text| ==> text[to] == rest[|name|] == tail[0];
    WordEndIs(text, from + 1, to);
    forall k | to <= k < |text| ensures text[k] == tail[k - to] {
      assert text[k] == rest[k - from];
    }
    SkipSpaceIs(text, to, to + next);
    assert text[from..to] == name;
    VariantFromParts(text, i, to, to + next);
  }

  lemma TailAt(tail: string)
    ensures IsTail(tail) <==>
            SkipSpace(tail, 0) == |tail| || tail[SkipSpace(tail, 0)] == '{' || tail[SkipSpace(tail, 0)] == '('
  {}

  lemma VariantFromParts(text: string, i: nat, to: nat, next: nat)
    requires i <= |text| && SkipSpace(text, i) < |text| && IsCapital(text[SkipSpace(text, i)])
    requires WordEnd(text, SkipSpace(text, i) + 1) == to && SkipSpace(text, to) == next
    ensures VariantAt(text, i) == if next == |text| || text[next] == '{' || text[next] == '('
                                  then Some(text[SkipSpace(text, i)..to]) else None
  {}

  lemma FirstOfTail(tail: string)
    requires IsTail(tail)
    ensures tail != "" ==> !IsWord(tail[0])
  {
    assert tail == "" || SkipSpace(tail, 0) > 0 || tail[0] == '{' || tail[0] == '(';
  }

  lemma SkipLead(lead: string, rest: string, i: nat)
    requires i <= |lead| && rest != "" && !IsSpace(rest[0])
    ensures SkipSpace(lead + rest, i) == SkipSpace(lead, i)
    ensures SkipSpace(lead, i) < |lead| ==> (lead + rest)[SkipSpace(lead, i)] == lead[SkipSpace(lead, i)]
  {
    var text := lead + rest;
    assert text[|lead|] == rest[0];
    assert forall k :: 0 <= k < |lead| ==> text[k] == lead[k];
    SkipSpaceIs(text, i, SkipSpace(lead, i));
  }

  lemma VariantAtName(lead: string, name: string, tail: string, i: nat)
    requires IsHead(lead, name) && (tail != "" ==> !IsWord(tail[0])) && IsLineStart(lead, i)
    ensures
      var text := lead + name + tail;
      VariantAt(text, i) == if SkipSpace(lead, i) == |lead| && IsTail(tail) then Some(name) else None
  {
    var text, from := lead + name + tail, SkipSpace(lead, i);
    assert !IsSpace(name[0]);
    SkipLead(lead, name + tail, i);
    assert text == lead + (name + tail);
    if from == |lead| {
      hide IsLineStart, SkipSpace, WordEnd, IsSpace, IsWord, VariantAt, IsTail;
      assert text[from..] == name + tail;
      VariantHere(text, i, name, tail);
    }
  }

  // ----- Outer white space does not matter -----

  lemma TrimmedSlice(s: string, a: nat) returns (b: nat)
    requires a <= |s|
    ensures a <= b <= |s| && TrimEnd(s[a..]) == s[a..b]
    ensures forall k :: b <= k < |s| ==> IsSpace(s[k])
  {
    var rest := s[a..];
    var c := TrimmedEnd(rest);
    b := a + c;
    assert rest[..c] == s[a..b];
    forall k | b <= k < |s| ensures IsSpace(s[k]) {
      assert rest[k - a] == s[k];
    }
  }

  lemma {:induction false} NothingAfterSpace(s: string, i: nat)
    requires i <= |s| && forall k :: i <= k < |s| ==> IsSpace(s[k])
    ensures VariantAfterNewline(s, i) == None
    decreases |s| - i
  {
    if i < |s| {
      SkipSpaceIs(s, i + 1, |s|);
      NothingAfterSpace(s, i + 1);
    }
  }

  lemma {:induction false} AfterNewlineInSlice(s: string, a: nat, b: nat, i: nat)
    requires a + i <= b <= |s| && forall k :: b <= k < |s| ==> IsSpace(s[k])
    ensures VariantAfterNewline(s[a..b], i) == VariantAfterNewline(s, a + i)
    decreases b - a - i
  {
    hide VariantAt, IsSpace;
    if a + i < b {
      VariantInSlice(s, a, b, i + 1);
      AfterNewlineInSlice(s, a, b, i + 1);
    } else {
      NothingAfterSpace(s, b);
    }
  }

  lemma {:induction false} AfterNewlineInSpace(s: string, i: nat)
    requires i <= SkipSpace(s, 0) && VariantAt(s, 0).None?
    ensures VariantAfterNewline(s, i) == VariantAfterNewline(s, SkipSpace(s, 0))
    decreases SkipSpace(s, 0) - i
  {
    var a := SkipSpace(s, 0);
    if i < a {
      SkipSpaceIs(s, i + 1, a);
      assert VariantAt(s, i + 1) == VariantAt(s, 0);
      AfterNewlineInSpace(s, i + 1);
    }
  }

  /** Stripping a chunk does not change which name is read from it. */
  lemma StripIsNeutral(s: string)
    ensures FindVariant(Strip(s)) == FindVariant(s)
  {
    var a := SkipSpace(s, 0);
    var b := TrimmedSlice(s, a);
    SkipSpaceIs(s, a, a);
    assert VariantAt(s, a) == VariantAt(s, 0);
    VariantInSlice(s, a, b, 0);
    AfterNewlineInSlice(s, a, b, 0);
    if VariantAt(s, 0).None? {
      AfterNewlineInSpace(s, 0);
    }
  }

  // ----- Which name is read from a chunk -----

  ghost predicate IsName(name: string) {
    name != "" && IsCapital(name[0]) && forall c :: c in name ==> IsWord(c)
  }

  /** White space, a capitalised name, white space, and a payload or nothing. */
  ghost predicate IsVariantText(text: string, name: string) {
    exists gap, tail :: IsBlank(gap) && IsName(name) && IsPayload(tail) && text == gap + (name + tail)
  }

  ghost predicate IsPayload(tail: string) {
    exists gap, rest ::
      IsBlank(gap) && tail == gap + rest && (rest == "" || rest[0] == '{' || rest[0] == '(')
  }

  lemma PayloadIsTail(tail: string)
    ensures IsPayload(tail) <==> IsTail(tail)
    ensures IsTail(tail) && tail != "" ==> !IsWord(tail[0])
  {
    if IsTail(tail) {
      FirstOfTail(tail);
      assert tail[0..] == tail;
      PayloadSlice(tail, 0);
    }
    if IsPayload(tail) {
      var gap, rest :| IsBlank(gap) && tail == gap + rest && (rest == "" || rest[0] == '{' || rest[0] == '(');
      BlankThenRest(tail, gap, rest);
    }
  }

  lemma BlankThenRest(tail: string, gap: string, rest: string)
    requires IsBlank(gap) && tail == gap + rest && (rest == "" || rest[0] == '{' || rest[0] == '(')
    ensures IsTail(tail)
  {
    assert forall k :: 0 <= k < |gap| ==> tail[k] == gap[k] && gap[k] in gap;
    assert rest != "" ==> tail[|gap|] == rest[0];
    SkipSpaceIs(tail, 0, |gap|);
  }

  lemma VariantAtIsExact(s: string, i: nat, name: string)
    requires i <= |s|
    ensures VariantAt(s, i) == Some(name) <==> IsVariantText(s[i..], name)
  {
    if VariantAt(s, i) == Some(name) {
      NameAndTail(s, i, name);
    }
    if IsVariantText(s[i..], name) {
      var gap, tail :| IsBlank(gap) && IsName(name) && IsPayload(tail) && s[i..] == gap + (name + tail);
      PayloadIsTail(tail);
      GapIsSkipped(s, i, gap, name + tail);
      hide VariantAt, IsTail, IsPayload, IsWord, IsSpace;
      VariantHere(s, i, name, tail);
    }
  }

  lemma GapIsSkipped(s: string, i: nat, gap: string, rest: string)
    requires i <= |s| && IsBlank(gap) && s[i..] == gap + rest && rest != "" && !IsSpace(rest[0])
    ensures SkipSpace(s, i) == i + |gap| && s[SkipSpace(s, i)..] == rest
  {
    assert forall k :: 0 <= k < |gap| ==> s[i + k] == s[i..][k] == gap[k] && gap[k] in gap;
    assert s[i + |gap|] == s[i..][|gap|] == rest[0];
    SkipSpaceIs(s, i, i + |gap|);
    assert s[i..][|gap|..] == rest;
  }

  lemma NameAndTail(s: string, i: nat, name: string)
    requires i <= |s| && VariantAt(s, i) == Some(name)
    ensures IsVariantText(s[i..], name)
  {
    var from := SkipSpace(s, i);
    var to := WordEnd(s, from + 1);
    assert name == s[from..to];
    BlankSlice(s, i, from);
    WordSlice(s, from, to);
    PayloadSlice(s, to);
    hide VariantAt, SkipSpace, WordEnd, IsName, IsPayload, IsBlank;
    assert s[i..] == s[i..from] + (s[from..to] + s[to..]);
  }

  lemma WordSlice(s: string, from: nat, to: nat)
    requires from < |s| && IsCapital(s[from]) && to == WordEnd(s, from + 1)
    ensures IsName(s[from..to])
  {
    WordsUpTo(s, from + 1);
    assert s[from..to] == [s[from]] + s[from + 1..to];
    hide WordEnd;
  }

  lemma PayloadSlice(s: string, to: nat)
    requires to <= |s|
    requires var next := SkipSpace(s, to); next == |s| || s[next] == '{' || s[next] == '('
    ensures IsPayload(s[to..])
  {
    var next := SkipSpace(s, to);
    BlankSlice(s, to, next);
    hide SkipSpace, IsBlank;
    assert s[to..] == s[to..next] + s[next..];
  }

  lemma {:induction false} WordsUpTo(s: string, i: nat)
    requires i <= |s|
    ensures forall c :: c in s[i..WordEnd(s, i)] ==> IsWord(c)
    decreases |s| - i
  {
    if i < |s| && IsWord(s[i]) {
      WordsUpTo(s, i + 1);
      assert s[i..WordEnd(s, i)] == [s[i]] + s[i + 1..WordEnd(s, i)];
    }
  }

  /** A line of the chunk declares a variant of this name. */
  ghost predicate IsVariantLine(s: string, i: int, name: string) {
    IsLineStart(s, i) && IsVariantText(s[i..], name)
  }

  ghost predicate IsFirstVariant(s: string, from: int, i: int, name: string) {
    from <= i && IsVariantLine(s, i, name) && forall k, other :: from <= k < i ==> !IsVariantLine(s, k, other)
  }

  lemma {:induction false} FirstVariantFrom(s: string, i: nat)
    requires i <= |s|
    ensures
      var found, from := VariantAfterNewline(s, i), i + 1;
      if found.Some? then exists k :: IsFirstVariant(s, from, k, found.value)
      else forall k, other :: from <= k ==> !IsVariantLine(s, k, other)
    decreases |s| - i
  {
    hide VariantAt, IsVariantText;
    if i < |s| {
      if s[i] == '\n' {
        LineVariant(s, i + 1);
      }
      FirstVariantFrom(s, i + 1);
      var later := VariantAfterNewline(s, i + 1);
      if s[i] == '\n' && VariantAt(s, i + 1).Some? {
        assert IsFirstVariant(s, i + 1, i + 1, VariantAt(s, i + 1).value);
      } else {
        assert VariantAfterNewline(s, i) == later;
        if later.Some? {
          var k :| IsFirstVariant(s, i + 2, k, later.value);
          assert IsFirstVariant(s, i + 1, k, later.value);
        }
      }
    }
  }

  lemma LineVariant(s: string, i: nat)
    requires i <= |s| && IsLineStart(s, i)
    ensures VariantAt(s, i).Some? ==> IsVariantLine(s, i, VariantAt(s, i).value)
    ensures VariantAt(s, i).None? ==> forall other :: !IsVariantLine(s, i, other)
  {
    hide VariantAt, IsVariantText;
    forall other ensures VariantAt(s, i) == Some(other) <==> IsVariantText(s[i..], other) {
      VariantAtIsExact(s, i, other);
    }
  }

  /** The reader finds the first line of the chunk that declares a variant, and nothing exactly
      when there is none. */
  lemma FirstVariantIsFound(s: string)
    ensures
      var found := FindVariant(Strip(s));
      if found.Some? then exists k :: IsFirstVariant(s, 0, k, found.value)
      else forall k, other :: !IsVariantLine(s, k, other)
  {
    StripIsNeutral(s);
    hide VariantAt, IsVariantText, Strip, VariantAfterNewline;
    LineVariant(s, 0);
    FirstVariantFrom(s, 0);
    if VariantAt(s, 0).Some? {
      assert IsFirstVariant(s, 0, 0, VariantAt(s, 0).value);
    } else if VariantAfterNewline(s, 0).Some? {
      var k :| IsFirstVariant(s, 1, k, VariantAfterNewline(s, 0).value);
      assert IsFirstVariant(s, 0, k, VariantAfterNewline(s, 0).value);
    }
  }

  // ----- The walk over the lead -----

  lemma {:induction false} ReachesName(lead: string, name: string, tail: string, i: nat, good: nat)
    requires IsDeclaration(lead, name, tail)
    requires IsLineStart(lead, good) && SkipSpace(lead, good) == |lead| && i < good
    ensures VariantAfterNewline(lead + name + tail, i) == Some(name)
    decreases good - i
  {
    FirstOfTail(tail);
    hide IsHead, VariantAt, IsTail;
    assert (lead + name + tail)[i] == lead[i];
    if lead[i] == '\n' {
      VariantAtName(lead, name, tail, i + 1);
    }
    if i + 1 < good {
      ReachesName(lead, name, tail, i + 1, good);
    }
  }

  lemma {:induction false} PassesName(lead: string, name: string, tail: string, i: nat)
    requires IsHead(lead, name) && tail != "" && !IsWord(tail[0]) && !IsTail(tail) && i <= |lead + name|
    ensures VariantAfterNewline(lead + name + tail, i) == VariantAfterNewline(tail, 0)
    decreases |lead + name| - i
  {
    var text, end := lead + name + tail, |lead + name|;
    if i == end {
      assert text[end..|text|] == tail;
      AfterNewlineInSlice(text, end, |text|, 0);
    } else {
      assert i >= |lead| ==> text[i] == name[i - |lead|];
      assert i < |lead| ==> text[i] == lead[i];
      assert !IsWord('\n');
      PassesName(lead, name, tail, i + 1);
      hide IsHead, VariantAt, IsTail, IsWord;
      if text[i] == '\n' {
        VariantAtName(lead, name, tail, i + 1);
      }
    }
  }

  /** What is read from a chunk with a name after any documentation and attribute lines: the
      name exactly when a payload or nothing follows it. A name followed by anything else,
      such as a discriminant, is passed over; then a later line of the tail is read, if one
      looks like a variant, and otherwise the variant is dropped without an error. */
  lemma NameIsFound(lead: string, name: string, tail: string)
    requires IsHead(lead, name) && (tail != "" ==> !IsWord(tail[0]))
    ensures FindVariant(Strip(lead + name + tail)) == if IsTail(tail) then Some(name) else VariantAfterNewline(tail, 0)
  {
    var text := lead + name + tail;
    StripIsNeutral(text);
    assert IsLineStart(lead, 0);
    VariantAtName(lead, name, tail, 0);
    if !IsTail(tail) {
      PassesName(lead, name, tail, 0);
    } else if VariantAt(text, 0).None? {
      var good :| IsLineStart(lead, good) && SkipSpace(lead, good) == |lead|;
      assert good > 0;
      ReachesName(lead, name, tail, 0, good);
    }
  }

  /** On one line: the variant is read if and only if its tail is a payload or empty. */
  lemma DiscriminantsAreDropped(lead: string, name: string, tail: string)
    requires IsHead(lead, name) && (tail != "" ==> !IsWord(tail[0])) && '\n' !in tail
    ensures FindVariant(Strip(lead + name + tail)) == if IsTail(tail) then Some(name) else None
  {
    NameIsFound(lead, name, tail);
    NoNewline(tail, 0);
  }

  lemma {:induction false} NoNewline(s: string, i: nat)
    requires i <= |s| && '\n' !in s
    ensures VariantAfterNewline(s, i) == None
    decreases |s| - i
  {
    if i < |s| {
      NoNewline(s, i + 1);
    }
  }

  lemma {:induction false} FillerHasNoName(space: string)
    requires forall c :: c in space ==> IsSpace(c)
    ensures FindVariant(Strip(space)) == None
  {
    SkipSpaceIs(space, 0, |space|);
    assert space[|space|..] == "";
    assert Strip(space) == "";
  }

  lemma {:induction false} NamesOfTexts(items: seq<Item>)
    requires forall item :: item in items ==> IsItem(item)
    ensures NamesOf(Texts(items)) == DeclaredNames(items)
  {
    if items != [] {
      var init, last := items[..|items| - 1], items[|items| - 1];
      NamesOfTexts(init);
      assert Texts(items)[..|items| - 1] == Texts(init);
      assert last in items;
      hide FindVariant, Strip, IsHead, BracesBalance, IsTail, VariantAfterNewline;
      match last
      case Declared(lead, name, tail) =>
        FirstOfTail(tail);
        NameIsFound(lead, name, tail);
      case Filler(space) => FillerHasNoName(space);
    }
  }

  lemma BalanceOfConcat(a: string, b: string)
    requires BracesBalance(a) && BracesBalance(b)
    ensures BracesBalance(a + b)
  {
    BraceDepthOfConcat(a, b);
    forall k | 0 <= k <= |a + b| ensures BraceDepth((a + b)[..k]) >= 0 {
      if k <= |a| {
        assert (a + b)[..k] == a[..k];
      } else {
        assert (a + b)[..k] == a + b[..k - |a|];
        BraceDepthOfConcat(a, b[..k - |a|]);
      }
    }
  }

  lemma {:induction false} JoinIsBalanced(chunks: seq<string>)
    requires forall k :: 0 <= k < |chunks| ==> BracesBalance(chunks[k])
    ensures BracesBalance(Join(chunks))
  {
    if |chunks| >= 2 {
      JoinIsBalanced(chunks[1..]);
      assert BracesBalance(",") by {
        assert ","[..0] == "" && ","[..1] == ",";
      }
      BalanceOfConcat(chunks[0], ",");
      BalanceOfConcat(chunks[0] + ",", Join(chunks[1..]));
    }
  }

  /** Round trip: the variants of a rendered enum are its declared names in order, whatever
      text follows the enum and whatever text without such a header precedes it. */
  lemma RenderedVariantsAreRead(prefix: string, name: string, gap: string, items: seq<Item>, suffix: string)
    requires IsBlank(gap)
    requires forall item :: item in items ==> IsItem(item)
    requires forall i, j :: 0 <= i < |prefix| ==> !IsHeader(prefix + Render(name, gap, items) + suffix, i, j, name)
    ensures EnumVariantsOf(prefix + Render(name, gap, items) + suffix, name) == Ok(DeclaredNames(items))
  {
    var texts := Texts(items);
    var source := prefix + Render(name, gap, items) + suffix;
    assert source == prefix + ("pub enum " + name + gap + "{" + Join(texts) + "}") + suffix;
    hide IsItem, EnumBodyOf, ChunksFrom, Join, IsHeader, IsBlank;
    ItemsAreCut(items);
    JoinIsBalanced(texts);
    BodyOfRendered(source, prefix, name, gap, Join(texts), suffix);
    NamesOfTexts(items);
    if items == [] {
      NoItems();
    } else {
      SplitInvertsJoin(texts);
    }
  }

  lemma BodyOfRendered(source: string, prefix: string, name: string, gap: string, body: string, suffix: string)
    requires IsBlank(gap) && BracesBalance(body)
    requires source == prefix + ("pub enum " + name + gap + "{" + body + "}") + suffix
    requires forall i, j :: 0 <= i < |prefix| ==> !IsHeader(source, i, j, name)
    ensures EnumBodyOf(source, name) == Ok(body)
  {
    hide EnumBodyOf, BracesBalance, IsBlank;
    var head, rest := "pub enum " + name + gap + "{", body + "}" + suffix;
    var i, start := |prefix|, |prefix| + |head|;
    assert source == prefix + (head + rest);
    assert source[i..] == head + rest;
    assert source[i..start] == head;
    assert IsHeader(source, i, start, name);
    forall h, e | h < 0 ensures !IsHeader(source, h, e, name) {
      NoHeaderBefore(source, h, e, name);
    }
    assert source == (prefix + head) + rest;
    assert source[start..start + |body|] == body && source[start + |body|] == '}';
    hide IsHeader;
    assert IsFirstHeader(source, i, start, name) && IsBodyAt(source, start, body);
    assert IsEnumBody(source, name, Ok(body));
    EnumBodyIsUnique(source, name, Ok(body));
  }

  lemma NoItems()
    ensures Join([]) == "" && ChunksOf("") == [""] && NamesOf([""]) == []
  {
    assert [""][..0] == [];
    FillerHasNoName("");
  }

  lemma ItemsAreCut(items: seq<Item>)
    requires forall item :: item in items ==> IsItem(item)
    ensures forall k :: 0 <= k < |items| ==> BracesBalance(Texts(items)[k])
    ensures items != [] ==> CutsAreBareCommas(Texts(items))
  {
    forall k | 0 <= k < |items|
      ensures BracesBalance(Texts(items)[k]) && NoBareComma(Texts(items)[k]) && Nesting(Texts(items)[k]) == 0
    {
      assert items[k] in items;
    }
  }
}
