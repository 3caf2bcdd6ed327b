/** The JavaScript string built-ins the pipeline relies on (`toLowerCase`,
    `toUpperCase`, `trim`, `split`, `join`, `includes`), over an alphabet of
    ASCII plus the Spanish accented letters. */
module Strings {

  /** JavaScript's white space and line terminators: the set matched by `\s`
      and removed by `trim()`. */
  predicate IsSpace(c: char) {
    c == ' ' || c == '\t' || c == '\n' || c == '\U{0B}' || c == '\U{0C}' || c == '\r'
    || c == '\U{A0}' || c == '\U{1680}' || ('\U{2000}' <= c <= '\U{200A}')
    || c == '\U{2028}' || c == '\U{2029}' || c == '\U{202F}' || c == '\U{205F}'
    || c == '\U{3000}' || c == '\U{FEFF}'
  }

  /** The class `\w` of a JavaScript regular expression without the `u` flag. */
  predicate IsWordChar(c: char) {
    ('a' <= c <= 'z') || ('A' <= c <= 'Z') || ('0' <= c <= '9') || c == '_'
  }

  predicate IsDigit(c: char) {
    '0' <= c <= '9'
  }

  predicate IsUpper(c: char) {
    ('A' <= c <= 'Z') || c == 'Á' || c == 'É' || c == 'Í' || c == 'Ó' || c == 'Ú' || c == 'Ü' || c == 'Ñ'
  }

  predicate IsLower(c: char) {
    ('a' <= c <= 'z') || c == 'á' || c == 'é' || c == 'í' || c == 'ó' || c == 'ú' || c == 'ü' || c == 'ñ'
  }

  /** `toLowerCase` on one character of the alphabet; other characters are kept. */
  function LowerChar(c: char): char {
    if 'A' <= c <= 'Z' then (c as int - 'A' as int + 'a' as int) as char
    else if c == 'Á' then 'á'
    else if c == 'É' then 'é'
    else if c == 'Í' then 'í'
    else if c == 'Ó' then 'ó'
    else if c == 'Ú' then 'ú'
    else if c == 'Ü' then 'ü'
    else if c == 'Ñ' then 'ñ'
    else c
  }

  /** `toUpperCase` on one character of the alphabet; other characters are kept. */
  function UpperChar(c: char): char {
    if 'a' <= c <= 'z' then (c as int - 'a' as int + 'A' as int) as char
    else if c == 'á' then 'Á'
    else if c == 'é' then 'É'
    else if c == 'í' then 'Í'
    else if c == 'ó' then 'Ó'
    else if c == 'ú' then 'Ú'
    else if c == 'ü' then 'Ü'
    else if c == 'ñ' then 'Ñ'
    else c
  }

  /** Lower-casing leaves no upper-case letter, is idempotent, changes
      only upper-case letters and never makes or removes white space. */
  lemma LowerCharFacts(c: char)
    ensures !IsUpper(LowerChar(c))
    ensures LowerChar(LowerChar(c)) == LowerChar(c)
    ensures !IsUpper(c) ==> LowerChar(c) == c
    ensures IsSpace(LowerChar(c)) <==> IsSpace(c)
    ensures LowerChar(c) == ' ' <==> c == ' '
  {
  }

  /** Upper-casing leaves no lower-case letter, changes only lower-case
      letters, is undone by lower-casing and never makes or removes white
      space. */
  lemma UpperCharFacts(c: char)
    ensures !IsLower(UpperChar(c))
    ensures !IsLower(c) ==> UpperChar(c) == c
    ensures LowerChar(UpperChar(c)) == LowerChar(c)
    ensures IsSpace(UpperChar(c)) <==> IsSpace(c)
    ensures UpperChar(c) == ' ' <==> c == ' '
  {
  }

  /** Two characters with the same lower case are equal when neither is an
      upper-case letter, and when neither is a lower-case letter. */
  lemma SameLowerCase(a: char, b: char)
    requires LowerChar(a) == LowerChar(b)
    ensures !IsUpper(a) && !IsUpper(b) ==> a == b
    ensures !IsLower(a) && !IsLower(b) ==> a == b
  {
  }

  function Lower(s: string): string {
    seq(|s|, i requires 0 <= i < |s| => LowerChar(s[i]))
  }

  /** Lower-casing twice is lower-casing once. */
  lemma LowerIdempotent(s: string)
    ensures Lower(Lower(s)) == Lower(s)
  {
    forall i | 0 <= i < |s| ensures Lower(Lower(s))[i] == Lower(s)[i] {
      LowerCharFacts(s[i]);
    }
  }

  /** Lower-casing works character by character. */
  lemma LowerAppend(a: string, b: string)
    ensures Lower(a + b) == Lower(a) + Lower(b)
  {
    assert forall k :: 0 <= k < |a| + |b| ==> Lower(a + b)[k] == (Lower(a) + Lower(b))[k];
  }

  // ------------------------------------------------------------- numbers

  function DigitValue(c: char): nat
    requires IsDigit(c)
  {
    c as int - '0' as int
  }

  /** The value of a run of decimal digits. */
  function DigitsValue(d: string): nat
    requires forall k :: 0 <= k < |d| ==> IsDigit(d[k])
  {
    if d == [] then 0 else 10 * DigitsValue(d[..|d| - 1]) + DigitValue(d[|d| - 1])
  }

  // ---------------------------------------------------------------- trim

  /** Number of white-space characters at the start of `s`. */
  function LeadingSpaces(s: string): (n: nat)
    ensures n <= |s|
    ensures forall k :: 0 <= k < n ==> IsSpace(s[k])
    ensures n < |s| ==> !IsSpace(s[n])
  {
    if s != [] && IsSpace(s[0]) then 1 + LeadingSpaces(s[1..]) else 0
  }

  /** Index where the run of white space at the end of `s` starts. */
  function TrailingStart(s: string): (j: nat)
    ensures j <= |s|
    ensures forall k :: j <= k < |s| ==> IsSpace(s[k])
    ensures 0 < j ==> !IsSpace(s[j - 1])
  {
    if s != [] && IsSpace(s[|s| - 1]) then TrailingStart(s[..|s| - 1]) else |s|
  }

  predicate Trimmed(s: string) {
    s == [] || (!IsSpace(s[0]) && !IsSpace(s[|s| - 1]))
  }

  /** `String.prototype.trim`: the slice of `s` between its leading and trailing
      white space. */
  function Trim(s: string): (r: string)
    ensures Trimmed(r)
    ensures |r| <= |s|
    ensures r == [] <==> forall k :: 0 <= k < |s| ==> IsSpace(s[k])
    ensures var i := LeadingSpaces(s);
      i + |r| <= |s| && r == s[i..i + |r|] && forall k :: i + |r| <= k < |s| ==> IsSpace(s[k])
  {
    var i := LeadingSpaces(s);
    var t := s[i..];
    var j := TrailingStart(t);
    assert t[..j] == s[i..i + j];
    forall k | i + j <= k < |s| ensures IsSpace(s[k]) {
      assert s[k] == t[k - i];
    }
    t[..j]
  }

  lemma TrimTrimmed(s: string)
    requires Trimmed(s)
    ensures Trim(s) == s
  {
  }

  /** White space in front of `t` does not change its trimmed form. */
  lemma TrimAfterBlank(w: string, t: string)
    requires forall k :: 0 <= k < |w| ==> IsSpace(w[k])
    ensures Trim(w + t) == Trim(t)
  {
    LeadingSpacesAfterBlank(w, t);
    DropPrefix(w, t, LeadingSpaces(t));
  }

  lemma DropPrefix(w: string, t: string, i: nat)
    requires i <= |t|
    ensures (w + t)[|w| + i..] == t[i..]
  {
  }

  lemma {:induction false} LeadingSpacesAfterBlank(w: string, t: string)
    requires forall k :: 0 <= k < |w| ==> IsSpace(w[k])
    ensures LeadingSpaces(w + t) == |w| + LeadingSpaces(t)
  {
    if w == [] {
      assert w + t == t;
    } else {
      assert (w + t)[1..] == w[1..] + t;
      LeadingSpacesAfterBlank(w[1..], t);
    }
  }

  /** White space behind `t` does not change its trimmed form. */
  lemma TrimBeforeBlank(t: string, w: string)
    requires forall k :: 0 <= k < |w| ==> IsSpace(w[k])
    ensures Trim(t + w) == Trim(t)
  {
    if forall k :: 0 <= k < |t| ==> IsSpace(t[k]) {
      assert forall k :: 0 <= k < |t + w| ==> IsSpace((t + w)[k]);
    } else {
      var i := LeadingSpacesBeforeBlank(t, w);
      assert (t + w)[i..] == t[i..] + w;
      TrailingStartBeforeBlank(t[i..], w);
      assert (t[i..] + w)[..TrailingStart(t[i..])] == t[i..][..TrailingStart(t[i..])];
    }
  }

  lemma {:induction false} LeadingSpacesBeforeBlank(t: string, w: string) returns (i: nat)
    requires exists k :: 0 <= k < |t| && !IsSpace(t[k])
    ensures i == LeadingSpaces(t) == LeadingSpaces(t + w) && i <= |t|
  {
    if IsSpace(t[0]) {
      assert (t + w)[1..] == t[1..] + w;
      var k :| 0 <= k < |t| && !IsSpace(t[k]);
      assert t[1..][k - 1] == t[k];
      i := LeadingSpacesBeforeBlank(t[1..], w);
      i := i + 1;
    } else {
      i := 0;
    }
  }

  lemma {:induction false} TrailingStartBeforeBlank(t: string, w: string)
    requires forall k :: 0 <= k < |w| ==> IsSpace(w[k])
    ensures TrailingStart(t + w) == TrailingStart(t)
  {
    if w == [] {
      assert t + w == t;
    } else {
      assert (t + w)[..|t + w| - 1] == t + w[..|w| - 1];
      TrailingStartBeforeBlank(t, w[..|w| - 1]);
    }
  }

  // ----------------------------------------------------- split and join

  function IndexOf(s: string, c: char): (i: nat)
    requires c in s
    ensures i < |s| && s[i] == c && c !in s[..i]
  {
    if s[0] == c then 0 else 1 + IndexOf(s[1..], c)
  }

  /** `s.split(sep)` for a one-character separator: the pieces between
      occurrences of `sep`, empty pieces included. */
  function SplitOn(s: string, sep: char): (parts: seq<string>)
    ensures |parts| >= 1
    ensures forall p :: p in parts ==> sep !in p
    decreases |s|
  {
    if sep !in s then [s]
    else
      var i := IndexOf(s, sep);
      [s[..i]] + SplitOn(s[i + 1..], sep)
  }

  /** `parts.join(sep)`. */
  function Join(parts: seq<string>, sep: char): string {
    if |parts| == 0 then ""
    else if |parts| == 1 then parts[0]
    else parts[0] + [sep] + Join(parts[1..], sep)
  }

  /** Joining the pieces of a split gives the string back. */
  lemma {:induction false} JoinSplitOn(s: string, sep: char)
    ensures Join(SplitOn(s, sep), sep) == s
    decreases |s|
  {
    if sep in s {
      var i := IndexOf(s, sep);
      var rest := s[i + 1..];
      JoinSplitOn(rest, sep);
      SplitAround(s, i);
      SplitOnCons(s[..i], sep, rest);
      JoinCons(s[..i], SplitOn(rest, sep), sep);
    }
  }

  /** A string is the text before index `i`, the character at `i` and the
      text after it. */
  lemma SplitAround(s: string, i: nat)
    requires i < |s|
    ensures s == s[..i] + [s[i]] + s[i + 1..]
  {
  }

  /** Joining a piece in front of at least one more piece puts a separator
      between them. */
  lemma JoinCons(p: string, parts: seq<string>, sep: char)
    requires |parts| >= 1
    ensures Join([p] + parts, sep) == p + [sep] + Join(parts, sep)
  {
    assert ([p] + parts)[1..] == parts;
  }

  lemma {:induction false} IndexOfAfterPiece(p: string, sep: char, rest: string)
    requires sep !in p
    ensures sep in p + [sep] + rest && IndexOf(p + [sep] + rest, sep) == |p|
  {
    var s := p + [sep] + rest;
    assert s[|p|] == sep;
    if p != [] {
      assert s[1..] == p[1..] + [sep] + rest;
      IndexOfAfterPiece(p[1..], sep, rest);
    }
  }

  /** Splitting a separator-free piece, a separator and a rest gives the piece
      followed by the pieces of the rest. */
  lemma SplitOnCons(p: string, sep: char, rest: string)
    requires sep !in p
    ensures SplitOn(p + [sep] + rest, sep) == [p] + SplitOn(rest, sep)
  {
    var s := p + [sep] + rest;
    IndexOfAfterPiece(p, sep, rest);
    assert s[..|p|] == p;
    assert s[|p| + 1..] == rest;
  }

  /** Splitting a join of separator-free pieces gives the pieces back. */
  lemma {:induction false} SplitOnJoin(parts: seq<string>, sep: char)
    requires |parts| >= 1
    requires forall p :: p in parts ==> sep !in p
    ensures SplitOn(Join(parts, sep), sep) == parts
  {
    if |parts| > 1 {
      assert parts[0] in parts;
      SplitOnCons(parts[0], sep, Join(parts[1..], sep));
      assert forall p :: p in parts[1..] ==> p in parts;
      SplitOnJoin(parts[1..], sep);
      assert parts == [parts[0]] + parts[1..];
    }
  }

  /** Index of the first white-space character of `s`, or `|s|`. */
  function SpaceIndex(s: string): (i: nat)
    ensures i <= |s|
    ensures forall k :: 0 <= k < i ==> !IsSpace(s[k])
    ensures i < |s| ==> IsSpace(s[i])
  {
    if s == [] || IsSpace(s[0]) then 0 else 1 + SpaceIndex(s[1..])
  }

  /** `s.split(/\s+/)`: the pieces between maximal runs of white space. */
  function SplitWs(s: string): (parts: seq<string>)
    ensures |parts| >= 1
    ensures forall p, k :: p in parts && 0 <= k < |p| ==> !IsSpace(p[k])
    decreases |s|
  {
    var i := SpaceIndex(s);
    if i == |s| then [s]
    else
      var j := i + LeadingSpaces(s[i..]);
      [s[..i]] + SplitWs(s[j..])
  }

  /** A string with no white space at either end splits into non-empty
      pieces, unless it is empty. */
  lemma {:induction false} SplitWsPiecesNonEmpty(s: string)
    requires s != [] && Trimmed(s)
    ensures forall p :: p in SplitWs(s) ==> p != []
    decreases |s|
  {
    var i := SpaceIndex(s);
    if i < |s| {
      var j := i + LeadingSpaces(s[i..]);
      assert !IsSpace(s[i..][|s| - 1 - i]);
      assert s[j..][|s[j..]| - 1] == s[|s| - 1];
      SplitWsPiecesNonEmpty(s[j..]);
    }
  }

  /** A piece without white space, a white-space character and a rest: the
      first white space is right after the piece. */
  lemma SpaceIndexAfterPiece(p: string, c: char, rest: string)
    requires forall k :: 0 <= k < |p| ==> !IsSpace(p[k])
    requires IsSpace(c)
    ensures SpaceIndex(p + [c] + rest) == |p|
  {
    var s := p + [c] + rest;
    assert s[|p|] == c;
    assert forall k :: 0 <= k < |p| ==> s[k] == p[k];
  }

  /** Splitting on white space undoes joining with single spaces, when no
      piece is empty or holds white space. */
  lemma {:induction false} SplitWsJoin(ws: seq<string>)
    requires |ws| >= 1
    requires forall w :: w in ws ==> w != [] && forall k :: 0 <= k < |w| ==> !IsSpace(w[k])
    ensures SplitWs(Join(ws, ' ')) == ws
  {
    assert ws[0] in ws;
    if |ws| == 1 {
      assert SpaceIndex(ws[0]) == |ws[0]|;
    } else {
      var rest := Join(ws[1..], ' ');
      assert ws[1] in ws;
      assert forall v :: v in ws[1..] ==> v in ws;
      JoinHead(ws[1..]);
      SplitWsStep(ws[0], rest);
      SplitWsJoin(ws[1..]);
      HeadTail(ws);
    }
  }

  /** A non-empty sequence is its head followed by its tail. */
  lemma HeadTail<T>(s: seq<T>)
    requires |s| >= 1
    ensures s == [s[0]] + s[1..]
  {
  }

  /** A white-space-free piece, one space and a rest that does not start
      with white space split into the piece and the pieces of the rest. */
  lemma SplitWsStep(w: string, rest: string)
    requires forall k :: 0 <= k < |w| ==> !IsSpace(w[k])
    requires rest != [] && !IsSpace(rest[0])
    ensures SplitWs(w + [' '] + rest) == [w] + SplitWs(rest)
  {
    var s := w + [' '] + rest;
    SpaceIndexAfterPiece(w, ' ', rest);
    var i := |w|;
    assert s[i..] == [' '] + rest;
    assert LeadingSpaces(s[i..]) == 1 by {
      assert s[i..][1..] == rest;
    }
    assert s[i + 1..] == rest;
    assert s[..i] == w;
  }

  /** A string without white space is its own single piece. */
  lemma SplitWsWhole(w: string)
    requires forall k :: 0 <= k < |w| ==> !IsSpace(w[k])
    ensures SplitWs(w) == [w]
  {
  }

  /** `split(/\s+/)` cuts at a whole run of white space: a white-space-free
      piece (possibly empty), a run of one or more white-space characters of
      any kind and a rest that does not start with white space split into
      the piece and the pieces of the rest. With `SplitWsWhole` this fixes
      the pieces of every string. */
  lemma SplitWsRun(w: string, sp: string, rest: string)
    requires forall k :: 0 <= k < |w| ==> !IsSpace(w[k])
    requires sp != [] && forall k :: 0 <= k < |sp| ==> IsSpace(sp[k])
    requires rest == [] || !IsSpace(rest[0])
    ensures SplitWs(w + sp + rest) == [w] + SplitWs(rest)
  {
    var s := w + sp + rest;
    RunIndex(w, sp, rest, s);
    RunSlices(w, sp, rest, s);
    LeadingSpacesAfterBlank(sp, rest);
  }

  /** `SplitWsRun` at positions of one string: a white-space-free prefix
      up to `i` and a run of white space from `i` to `j`. */
  lemma SplitWsRunAt(s: string, i: nat, j: nat)
    requires i < j <= |s|
    requires forall k :: 0 <= k < i ==> !IsSpace(s[k])
    requires forall k :: i <= k < j ==> IsSpace(s[k])
    requires j == |s| || !IsSpace(s[j])
    ensures SplitWs(s) == [s[..i]] + SplitWs(s[j..])
  {
    ThreeSlices(s, i, j);
    SplitWsRun(s[..i], s[i..j], s[j..]);
  }

  lemma ThreeSlices(s: string, i: nat, j: nat)
    requires i <= j <= |s|
    ensures s[..i] + s[i..j] + s[j..] == s
  {
  }

  lemma RunIndex(w: string, sp: string, rest: string, s: string)
    requires forall k :: 0 <= k < |w| ==> !IsSpace(w[k])
    requires sp != [] && IsSpace(sp[0])
    requires s == w + sp + rest
    ensures SpaceIndex(s) == |w|
  {
    HeadTail(sp);
    assert s == w + [sp[0]] + (sp[1..] + rest);
    SpaceIndexAfterPiece(w, sp[0], sp[1..] + rest);
  }

  lemma RunSlices(w: string, sp: string, rest: string, s: string)
    requires s == w + sp + rest
    ensures s[..|w|] == w && s[|w|..] == sp + rest && s[|w| + |sp|..] == rest
  {
  }

  /** A join starts with its first piece. */
  lemma JoinHead(parts: seq<string>)
    requires |parts| >= 1
    ensures parts[0] <= Join(parts, ' ')
  {
  }

  // ------------------------------------------------------------ includes

  ghost predicate OccursAt(s: string, sub: string, i: int) {
    0 <= i <= |s| - |sub| && s[i..i + |sub|] == sub
  }

  /** `s.includes(sub)`. */
  function Includes(s: string, sub: string): (r: bool)
    ensures r <==> exists i :: OccursAt(s, sub, i)
  {
    if sub <= s then
      assert OccursAt(s, sub, 0);
      true
    else if s == [] then false
    else
      var r := Includes(s[1..], sub);
      assert forall i :: OccursAt(s[1..], sub, i) ==> OccursAt(s, sub, i + 1);
      assert forall i :: OccursAt(s, sub, i) && i > 0 ==> OccursAt(s[1..], sub, i - 1);
      r
  }
}
