/** The local keyword and fuzzy classifier: normalises a description, keeps
    its significant words, scores them against every keyword of every
    subcategory of a synonym catalog and picks the strictly best one. */
module Classifier {
  import opened Wrappers
  import opened Strings

  /** Spanish function words that never count as description words. */
  const StopWords: seq<string> := ["el", "la", "de", "del", "en", "y", "a", "para", "con", "por",
    "un", "una", "los", "las", "que", "es", "se", "lo", "al", "le", "su", "me", "mi"]

  const ScoreExact: nat := 10
  const ScoreSubstring: nat := 6
  const ScoreFuzzy: nat := 4
  /** Smallest best score that is accepted as a classification. */
  const MinScore: nat := 4

  /** One subcategory of the synonym catalog and its keyword phrases. */
  datatype Entry = Entry(name: string, keywords: seq<string>)

  /** The catch-all subcategories left out of the scoring. */
  predicate IsCatchAll(name: string) {
    name == "Otros no clasificados" || name == "Gastos imprevistos"
  }

  // ------------------------------------------------------ normalisation

  predicate IsCombiningMark(c: char) {
    '\U{300}' <= c <= '\U{36F}'
  }

  /** Canonical decomposition of a lower-case Spanish letter followed by the
      removal of its combining mark. */
  function StripAccent(c: char): char {
    if c == 'á' then 'a'
    else if c == 'é' then 'e'
    else if c == 'í' then 'i'
    else if c == 'ó' then 'o'
    else if c == 'ú' || c == 'ü' then 'u'
    else if c == 'ñ' then 'n'
    else c
  }

  function StripAccents(s: string): string {
    seq(|s|, i requires 0 <= i < |s| => StripAccent(s[i]))
  }

  /** `replace(/[\u0300-\u036f]/g, '')`. */
  function RemoveMarks(s: string): (r: string)
    ensures forall k :: 0 <= k < |r| ==> !IsCombiningMark(r[k]) && r[k] in s
    ensures (forall k :: 0 <= k < |s| ==> !IsCombiningMark(s[k])) ==> r == s
  {
    if s == [] then []
    else (if IsCombiningMark(s[0]) then [] else [s[0]]) + RemoveMarks(s[1..])
  }

  /** Removing the marks keeps a single character exactly when it is not a
      mark. */
  lemma RemoveMarksChar(c: char)
    ensures RemoveMarks([c]) == if IsCombiningMark(c) then [] else [c]
  {
  }

  /** Mark removal works character by character, so every other character
      survives in order. */
  lemma {:induction false} RemoveMarksAppend(a: string, b: string)
    ensures RemoveMarks(a + b) == RemoveMarks(a) + RemoveMarks(b)
  {
    if a == [] {
      assert a + b == b;
    } else {
      assert (a + b)[1..] == a[1..] + b;
      RemoveMarksAppend(a[1..], b);
    }
  }

  /** `replace(/[^\w\s]/g, ' ')`. */
  function BlankSpecials(s: string): string {
    seq(|s|, i requires 0 <= i < |s| => if IsWordChar(s[i]) || IsSpace(s[i]) then s[i] else ' ')
  }

  /** A character that normalisation leaves as it is. */
  predicate NormalChar(c: char) {
    !IsUpper(c) && !IsCombiningMark(c) && (IsWordChar(c) || IsSpace(c))
  }

  /** Lower-casing and stripping accents leaves no upper-case letter. */
  lemma FoldedNotUpper(text: string)
    ensures forall k :: 0 <= k < |text| ==> !IsUpper(StripAccents(Lower(text))[k])
  {
    forall k | 0 <= k < |text| ensures !IsUpper(StripAccents(Lower(text))[k]) {
      LowerCharFacts(text[k]);
    }
  }

  lemma BlankSpecialsNormal(s: string)
    requires forall k :: 0 <= k < |s| ==> !IsUpper(s[k]) && !IsCombiningMark(s[k])
    ensures forall k :: 0 <= k < |s| ==> NormalChar(BlankSpecials(s)[k])
  {
  }

  lemma TrimNormal(s: string)
    requires forall k :: 0 <= k < |s| ==> NormalChar(s[k])
    ensures forall k :: 0 <= k < |Trim(s)| ==> NormalChar(Trim(s)[k])
  {
    var r := Trim(s);
    var i := LeadingSpaces(s);
    forall k | 0 <= k < |r| ensures NormalChar(r[k]) {
      assert r[k] == s[i + k];
    }
  }

  /** `normalizeText`: lower-case, strip accents, blank out everything but
      word characters and white space, trim. */
  function Normalize(text: string): (r: string)
    ensures text == [] ==> r == []
    ensures forall k :: 0 <= k < |r| ==> NormalChar(r[k])
    ensures Trimmed(r)
  {
    if text == [] then []
    else
      var folded := StripAccents(Lower(text));
      FoldedNotUpper(text);
      var unmarked := RemoveMarks(folded);
      var blanked := BlankSpecials(unmarked);
      BlankSpecialsNormal(unmarked);
      TrimNormal(blanked);
      Trim(blanked)
  }

  /** On normalised text each stage of normalisation is the identity. */
  lemma NormalStagesFixed(n: string)
    requires forall k :: 0 <= k < |n| ==> NormalChar(n[k])
    ensures StripAccents(Lower(n)) == n
    ensures RemoveMarks(n) == n
    ensures BlankSpecials(n) == n
  {
    forall k | 0 <= k < |n| ensures Lower(n)[k] == n[k] {
      NormalCharFixed(n[k]);
    }
    assert Lower(n) == n;
    forall k | 0 <= k < |n| ensures StripAccents(n)[k] == n[k] {
      NormalCharFixed(n[k]);
    }
    assert StripAccents(n) == n;
    forall k | 0 <= k < |n| ensures BlankSpecials(n)[k] == n[k] {
      NormalCharFixed(n[k]);
    }
    assert BlankSpecials(n) == n;
  }

  lemma NormalCharFixed(c: char)
    requires NormalChar(c)
    ensures LowerChar(c) == c && StripAccent(c) == c && (IsWordChar(c) || IsSpace(c))
  {
  }

  /** Normalising normalised text changes nothing. */
  lemma NormalizeIdempotent(text: string)
    ensures Normalize(Normalize(text)) == Normalize(text)
  {
    var n := Normalize(text);
    if n != [] {
      NormalStagesFixed(n);
      TrimTrimmed(n);
    }
  }

  /** Normalised text without white space at either end is its own
      normalisation. */
  lemma NormalizeFixesNormal(n: string)
    requires forall k :: 0 <= k < |n| ==> NormalChar(n[k])
    requires Trimmed(n)
    ensures Normalize(n) == n
  {
    if n != [] {
      NormalStagesFixed(n);
      TrimTrimmed(n);
    }
  }

  /** Normalisation ignores case: lower-casing first changes nothing. */
  lemma NormalizeIgnoresCase(text: string)
    ensures Normalize(Lower(text)) == Normalize(text)
  {
    LowerIdempotent(text);
  }

  /** Stripping the accent of a character before or after lower-casing it
      gives the same letter. */
  lemma FoldAccentFirst(c: char)
    ensures StripAccent(LowerChar(StripAccent(c))) == StripAccent(LowerChar(c))
  {
  }

  /** Normalisation ignores accents: stripping them first changes nothing. */
  lemma NormalizeIgnoresAccents(text: string)
    ensures Normalize(StripAccents(text)) == Normalize(text)
  {
    var a := StripAccents(text);
    forall k | 0 <= k < |text| ensures StripAccents(Lower(a))[k] == StripAccents(Lower(text))[k] {
      FoldAccentFirst(text[k]);
    }
    assert StripAccents(Lower(a)) == StripAccents(Lower(text));
  }

  /** The text before trimming: lower-cased, unaccented, unmarked and with
      every special character blanked. */
  function Cleaned(text: string): (r: string)
    ensures forall k :: 0 <= k < |r| ==> NormalChar(r[k])
  {
    FoldedNotUpper(text);
    BlankSpecialsNormal(RemoveMarks(StripAccents(Lower(text))));
    BlankSpecials(RemoveMarks(StripAccents(Lower(text))))
  }

  /** Normalisation trims the cleaned text. */
  lemma NormalizeStages(text: string)
    ensures Normalize(text) == Trim(Cleaned(text))
  {
    if text == [] {
      assert Cleaned(text) == [];
    } else {
      assert Normalize(text) == Trim(BlankSpecials(RemoveMarks(StripAccents(Lower(text)))));
    }
  }

  /** Cleaning works character by character. */
  lemma CleanedAppend(a: string, b: string)
    ensures Cleaned(a + b) == Cleaned(a) + Cleaned(b)
  {
    LowerAppend(a, b);
    StripAccentsAppend(Lower(a), Lower(b));
    RemoveMarksAppend(StripAccents(Lower(a)), StripAccents(Lower(b)));
    BlankSpecialsAppend(RemoveMarks(StripAccents(Lower(a))), RemoveMarks(StripAccents(Lower(b))));
  }

  lemma StripAccentsAppend(a: string, b: string)
    ensures StripAccents(a + b) == StripAccents(a) + StripAccents(b)
  {
    assert forall k :: 0 <= k < |a| + |b| ==> StripAccents(a + b)[k] == (StripAccents(a) + StripAccents(b))[k];
  }

  lemma BlankSpecialsAppend(a: string, b: string)
    ensures BlankSpecials(a + b) == BlankSpecials(a) + BlankSpecials(b)
  {
    assert forall k :: 0 <= k < |a| + |b| ==> BlankSpecials(a + b)[k] == (BlankSpecials(a) + BlankSpecials(b))[k];
  }

  /** A character that is neither a word character, white space nor a
      combining mark once lower-cased and unaccented, such as ',' or '$'. */
  predicate IsSpecial(c: char) {
    var f := StripAccent(LowerChar(c));
    !IsWordChar(f) && !IsSpace(f) && !IsCombiningMark(f)
  }

  /** Cleaning turns a special character into a space. */
  lemma CleanedSpecial(c: char)
    requires IsSpecial(c)
    ensures Cleaned([c]) == [' ']
  {
    var f := StripAccent(LowerChar(c));
    assert StripAccents(Lower([c])) == [f];
    RemoveMarksChar(f);
  }

  /** Cleaning keeps white space. */
  lemma CleanedBlank(w: string)
    requires forall k :: 0 <= k < |w| ==> IsSpace(w[k])
    ensures Cleaned(w) == w
  {
    NormalStagesFixed(w);
  }

  /** A special character normalises like a space: `normalizeText` blanks
      it. */
  lemma NormalizeBlanksSpecial(a: string, c: char, b: string)
    requires IsSpecial(c)
    ensures Normalize(a + [c] + b) == Normalize(a + [' '] + b)
  {
    NormalizeStages(a + [c] + b);
    NormalizeStages(a + [' '] + b);
    CleanedAppend(a + [c], b);
    CleanedAppend(a, [c]);
    CleanedAppend(a + [' '], b);
    CleanedAppend(a, [' ']);
    CleanedSpecial(c);
    CleanedBlank([' ']);
  }

  /** Leading white space does not change the normalisation. */
  lemma NormalizeDropsLeadingBlank(w: string, t: string)
    requires forall k :: 0 <= k < |w| ==> IsSpace(w[k])
    ensures Normalize(w + t) == Normalize(t)
  {
    NormalizeStages(w + t);
    NormalizeStages(t);
    CleanedAppend(w, t);
    CleanedBlank(w);
    TrimAfterBlank(w, Cleaned(t));
  }

  /** Trailing white space does not change the normalisation. */
  lemma NormalizeDropsTrailingBlank(t: string, w: string)
    requires forall k :: 0 <= k < |w| ==> IsSpace(w[k])
    ensures Normalize(t + w) == Normalize(t)
  {
    NormalizeStages(t + w);
    NormalizeStages(t);
    CleanedAppend(t, w);
    CleanedBlank(w);
    TrimBeforeBlank(Cleaned(t), w);
  }

  /** "uber, taxi" normalises to "uber  taxi": the comma becomes a space. */
  lemma UberTaxiExample()
    ensures Normalize("uber, taxi") == "uber  taxi"
  {
    UberTaxiBlanked("uber, taxi", "uber  taxi");
  }

  lemma UberTaxiBlanked(t: string, n: string)
    requires t == "uber, taxi" && n == "uber  taxi"
    ensures Normalize(t) == n
  {
    var a, b := t[..4], t[5..];
    UberTaxiPieces(t, n, a, b);
    NormalizeBlanksSpecial(a, ',', b);
    UberTaxiNormal(n);
  }

  lemma UberTaxiPieces(t: string, n: string, a: string, b: string)
    requires t == "uber, taxi" && n == "uber  taxi" && a == t[..4] && b == t[5..]
    ensures t == a + [','] + b && n == a + [' '] + b
  {
  }

  lemma UberTaxiNormal(n: string)
    requires n == "uber  taxi"
    ensures Normalize(n) == n
  {
    assert forall k :: 0 <= k < |n| ==> NormalChar(n[k]);
    NormalizeFixesNormal(n);
  }

  /** "Café SA" and "cafe sa" normalise alike, to "cafe sa". */
  lemma CafeExample()
    ensures Normalize("Café SA") == Normalize("cafe sa") == "cafe sa"
  {
    CafeFolds("Café SA", "café sa", "cafe sa");
  }

  lemma CafeFolds(t: string, l: string, a: string)
    requires t == "Café SA" && l == "café sa" && a == "cafe sa"
    ensures Normalize(t) == Normalize(a) == a
  {
    NormalizeIgnoresCase(t);
    CafeLower(t, l);
    NormalizeIgnoresAccents(l);
    CafeUnaccented(l, a);
    CafeNormal(a);
  }

  lemma CafeLower(t: string, l: string)
    requires t == "Café SA" && l == "café sa"
    ensures Lower(t) == l
  {
  }

  lemma CafeUnaccented(l: string, a: string)
    requires l == "café sa" && a == "cafe sa"
    ensures StripAccents(l) == a
  {
  }

  lemma CafeNormal(a: string)
    requires a == "cafe sa"
    ensures Normalize(a) == a
  {
    assert forall k :: 0 <= k < |a| ==> NormalChar(a[k]);
    NormalizeFixesNormal(a);
  }

  /** A word is significant when it is longer than two characters and is not
      a stop word. */
  predicate Significant(w: string) {
    |w| > 2 && !Listed(w, StopWords)
  }

  /** `list.includes(w)`, element by element. */
  predicate Listed(w: string, list: seq<string>) {
    list != [] && (list[0] == w || Listed(w, list[1..]))
  }

  /** Listing is membership. */
  lemma {:induction false} ListedIn(w: string, list: seq<string>)
    ensures Listed(w, list) <==> w in list
  {
    if list != [] {
      ListedIn(w, list[1..]);
      HeadTail(list);
    }
  }

  /** `filter(w => w.length > 2 && !STOPWORDS_ES.includes(w))`. */
  function KeepSignificant(pieces: seq<string>): (words: seq<string>)
    ensures forall w :: w in words ==> Significant(w) && w in pieces
  {
    if pieces == [] then []
    else (if Significant(pieces[0]) then [pieces[0]] else []) + KeepSignificant(pieces[1..])
  }

  /** The filter keeps the order of the pieces: it distributes over
      concatenation. */
  lemma {:induction false} KeepSignificantAppend(a: seq<string>, b: seq<string>)
    ensures KeepSignificant(a + b) == KeepSignificant(a) + KeepSignificant(b)
  {
    if a != [] {
      var head := if Significant(a[0]) then [a[0]] else [];
      assert (a + b)[0] == a[0];
      assert (a + b)[1..] == a[1..] + b;
      assert KeepSignificant(a + b) == head + KeepSignificant(a[1..] + b);
      KeepSignificantAppend(a[1..], b);
      assert KeepSignificant(a) == head + KeepSignificant(a[1..]);
    } else {
      assert a + b == b;
    }
  }

  /** The filter keeps every copy of a significant piece and no copy of any
      other piece. */
  lemma {:induction false} KeepSignificantCount(pieces: seq<string>, w: string)
    ensures multiset(KeepSignificant(pieces))[w] == if Significant(w) then multiset(pieces)[w] else 0
  {
    if pieces != [] {
      KeepSignificantCount(pieces[1..], w);
      assert pieces == [pieces[0]] + pieces[1..];
    }
  }

  /** `extractWords`: the significant words of the normalised text, in order,
      duplicates included. */
  function ExtractWords(text: string): (words: seq<string>)
    ensures text == [] ==> words == []
    ensures forall w :: w in words ==>
      Significant(w) && forall k :: 0 <= k < |w| ==> IsWordChar(w[k]) && !IsUpper(w[k])
  {
    var n := Normalize(text);
    var pieces := SplitWs(n);
    SplitWsNormal(n);
    var words := KeepSignificant(pieces);
    assert n == [] ==> words == [] by {
      if n == [] {
        assert SpaceIndex(n) == 0;
        assert pieces == [[]] && !Significant(pieces[0]) && pieces[1..] == [];
        assert KeepSignificant(pieces[1..]) == [];
      }
    }
    forall w | w in words
      ensures Significant(w) && forall k :: 0 <= k < |w| ==> IsWordChar(w[k]) && !IsUpper(w[k])
    {
      assert w in pieces;
    }
    words
  }

  /** A word as normalisation leaves it: non-empty lower-case word
      characters. */
  predicate PlainWord(w: string) {
    w != [] && forall k :: 0 <= k < |w| ==> IsWordChar(w[k]) && !IsUpper(w[k])
  }

  /** The words of a text made of plain words separated by single spaces are
      exactly its significant words, in order and with their repeats. */
  lemma ExtractWordsOfPlainText(ws: seq<string>, text: string)
    requires |ws| >= 1
    requires forall w :: w in ws ==> PlainWord(w)
    requires text == Join(ws, ' ')
    ensures ExtractWords(text) == KeepSignificant(ws)
  {
    PlainJoinFixed(ws);
    PlainNoSpace(ws);
    SplitWsJoin(ws);
    ExtractWordsFrom(text, ws);
  }

  lemma PlainNoSpace(ws: seq<string>)
    requires forall w :: w in ws ==> PlainWord(w)
    ensures forall w :: w in ws ==> w != [] && forall k :: 0 <= k < |w| ==> !IsSpace(w[k])
  {
  }

  lemma ExtractWordsFrom(text: string, ws: seq<string>)
    requires Normalize(text) == text && SplitWs(text) == ws
    ensures ExtractWords(text) == KeepSignificant(ws)
  {
    ExtractWordsSteps(text);
  }

  /** Plain words joined by single spaces are their own normalisation. */
  lemma PlainJoinFixed(ws: seq<string>)
    requires |ws| >= 1
    requires forall w :: w in ws ==> PlainWord(w)
    ensures Normalize(Join(ws, ' ')) == Join(ws, ' ')
  {
    PlainJoinNormal(ws);
    NormalizeFixesNormal(Join(ws, ' '));
  }

  /** The three steps of `extractWords`. */
  lemma ExtractWordsSteps(text: string)
    ensures ExtractWords(text) == KeepSignificant(SplitWs(Normalize(text)))
  {
  }

  /** "uber, taxi" gives the words "uber" and "taxi": the comma becomes a
      space and the run of two spaces is one cut. */
  lemma UberTaxiWords()
    ensures ExtractWords("uber, taxi") == ["uber", "taxi"]
  {
    UberTaxiWordsOf("uber, taxi", "uber  taxi", "uber", "taxi");
  }

  lemma UberTaxiWordsOf(t: string, n: string, a: string, b: string)
    requires t == "uber, taxi" && n == "uber  taxi" && a == "uber" && b == "taxi"
    ensures ExtractWords(t) == [a, b]
  {
    ExtractWordsSteps(t);
    UberTaxiBlanked(t, n);
    UberTaxiSplit(n, a, b);
    UberTaxiKept(a, b);
  }

  lemma UberTaxiSplit(n: string, a: string, b: string)
    requires n == "uber  taxi" && a == "uber" && b == "taxi"
    ensures SplitWs(n) == [a, b]
  {
    UberTaxiShape(n, a, b);
    SplitAtRun(n, a, b);
  }

  lemma UberTaxiShape(n: string, a: string, b: string)
    requires n == "uber  taxi" && a == "uber" && b == "taxi"
    ensures |n| == 10 && n[..4] == a && n[6..] == b
    ensures forall k :: 0 <= k < 4 ==> !IsSpace(n[k])
    ensures forall k :: 4 <= k < 6 ==> IsSpace(n[k])
    ensures forall k :: 6 <= k < 10 ==> !IsSpace(n[k])
  {
  }

  lemma SplitAtRun(n: string, a: string, b: string)
    requires |n| == 10 && n[..4] == a && n[6..] == b
    requires forall k :: 0 <= k < 4 ==> !IsSpace(n[k])
    requires forall k :: 4 <= k < 6 ==> IsSpace(n[k])
    requires forall k :: 6 <= k < 10 ==> !IsSpace(n[k])
    ensures SplitWs(n) == [a, b]
  {
    SplitWsRunAt(n, 4, 6);
    SplitWsWhole(n[6..]);
  }

  lemma UberTaxiKept(a: string, b: string)
    requires a == "uber" && b == "taxi"
    ensures KeepSignificant([a, b]) == [a, b]
  {
    StopWordsShape();
    ListedIn(a, StopWords);
    ListedIn(b, StopWords);
    KeepTwoSignificant(a, b);
  }

  /** Every stop word has at most three letters, except "para". */
  lemma StopWordsShape()
    ensures forall w :: w in StopWords ==> |w| <= 3 || (|w| == 4 && w[0] == 'p')
  {
  }

  lemma KeepTwoSignificant(a: string, b: string)
    requires Significant(a) && Significant(b)
    ensures KeepSignificant([a, b]) == [a, b]
  {
    assert [a, b][1..] == [b];
    assert [b][1..] == [];
    assert KeepSignificant([b]) == [b];
  }

  /** Plain words joined by single spaces are normalised text with no white
      space at either end. */
  lemma {:induction false} PlainJoinNormal(ws: seq<string>)
    requires |ws| >= 1
    requires forall w :: w in ws ==> PlainWord(w)
    ensures forall w :: w in ws ==> w != [] && forall k :: 0 <= k < |w| ==> !IsSpace(w[k])
    ensures forall k :: 0 <= k < |Join(ws, ' ')| ==> NormalChar(Join(ws, ' ')[k])
    ensures Join(ws, ' ') != [] && Trimmed(Join(ws, ' '))
  {
    var s := Join(ws, ' ');
    assert ws[0] in ws;
    if |ws| > 1 {
      var rest := Join(ws[1..], ' ');
      assert forall v :: v in ws[1..] ==> v in ws;
      PlainJoinNormal(ws[1..]);
      assert s == ws[0] + [' '] + rest;
      forall k | 0 <= k < |s| ensures NormalChar(s[k]) {
        if k < |ws[0]| {
          assert s[k] == ws[0][k];
        } else if k > |ws[0]| {
          assert s[k] == rest[k - |ws[0]| - 1];
        }
      }
      assert s[0] == ws[0][0];
      assert s[|s| - 1] == rest[|rest| - 1];
    }
  }

  /** The pieces of normalised text are made of lower-case word characters. */
  lemma {:induction false} SplitWsNormal(s: string)
    requires forall k :: 0 <= k < |s| ==> NormalChar(s[k])
    ensures forall p, k :: p in SplitWs(s) && 0 <= k < |p| ==> IsWordChar(p[k]) && !IsUpper(p[k])
    decreases |s|
  {
    var i := SpaceIndex(s);
    if i < |s| {
      var j := i + LeadingSpaces(s[i..]);
      assert forall k :: 0 <= k < |s[j..]| ==> s[j..][k] == s[j + k];
      SplitWsNormal(s[j..]);
      assert forall k :: 0 <= k < i ==> s[..i][k] == s[k];
    }
  }

  // ------------------------------------------------------------ scoring

  function Max(a: nat, b: nat): nat {
    if a >= b then a else b
  }

  /** The parts of a keyword phrase that are compared with description words. */
  function KeywordParts(keyword: string): seq<string> {
    SplitWs(Normalize(keyword))
  }

  /** What one keyword part contributes for one description word: parts
      shorter than three characters nothing; an equal part the exact score;
      otherwise, when both have at least four characters, the substring score
      if one contains the other and the fuzzy score if they are similar. */
  function PartScore(word: string, part: string, similar: (string, string) -> bool): (score: nat)
    ensures score in {0, ScoreFuzzy, ScoreSubstring, ScoreExact}
    ensures |part| < 3 ==> score == 0
    ensures score == ScoreExact <==> |part| >= 3 && word == part
  {
    if |part| < 3 then 0
    else if word == part then ScoreExact
    else if |word| >= 4 && |part| >= 4 && (Includes(word, part) || Includes(part, word)) then ScoreSubstring
    else if |word| >= 4 && |part| >= 4 && similar(word, part) then ScoreFuzzy
    else 0
  }

  /** Every part of every keyword phrase, in the order the loops visit them. */
  function AllParts(keywords: seq<string>): seq<string> {
    if keywords == [] then []
    else AllParts(keywords[..|keywords| - 1]) + KeywordParts(keywords[|keywords| - 1])
  }

  /** Each part of each keyword is compared. */
  lemma {:induction false} AllPartsHas(keywords: seq<string>, j: nat, part: string)
    requires j < |keywords| && part in KeywordParts(keywords[j])
    ensures part in AllParts(keywords)
  {
    var init := keywords[..|keywords| - 1];
    if j < |keywords| - 1 {
      assert init[j] == keywords[j];
      AllPartsHas(init, j, part);
    }
  }

  lemma AllPartsSnoc(keywords: seq<string>, k: string)
    ensures AllParts(keywords + [k]) == AllParts(keywords) + KeywordParts(k)
  {
    assert (keywords + [k])[..|keywords|] == keywords;
  }

  lemma AllPartsPrefix(keywords: seq<string>, j: nat)
    requires j < |keywords|
    ensures AllParts(keywords[..j + 1]) == AllParts(keywords[..j]) + KeywordParts(keywords[j])
  {
    assert keywords[..j + 1] == keywords[..j] + [keywords[j]];
    AllPartsSnoc(keywords[..j], keywords[j]);
  }

  /** The best contribution of any of `parts` for `word`: the `bestScore` of
      one description word. */
  function BestOverParts(word: string, parts: seq<string>, similar: (string, string) -> bool): nat {
    if parts == [] then 0
    else Max(BestOverParts(word, parts[..|parts| - 1], similar), PartScore(word, parts[|parts| - 1], similar))
  }

  /** A word's best score is one of the four contributions, at least what
      every part gives and, unless it is zero, what some part gives. */
  lemma {:induction false} BestOverPartsIsMax(word: string, parts: seq<string>, similar: (string, string) -> bool)
    ensures BestOverParts(word, parts, similar) in {0, ScoreFuzzy, ScoreSubstring, ScoreExact}
    ensures forall q :: q in parts ==> PartScore(word, q, similar) <= BestOverParts(word, parts, similar)
    ensures BestOverParts(word, parts, similar) == 0
      || exists q :: q in parts && BestOverParts(word, parts, similar) == PartScore(word, q, similar)
  {
    if parts != [] {
      var init := parts[..|parts| - 1];
      var last := parts[|parts| - 1];
      assert parts == init + [last];
      BestOverPartsIsMax(word, init, similar);
    }
  }

  lemma BestOverPartsSnoc(word: string, parts: seq<string>, q: string, similar: (string, string) -> bool)
    ensures BestOverParts(word, parts + [q], similar)
      == Max(BestOverParts(word, parts, similar), PartScore(word, q, similar))
  {
    assert (parts + [q])[..|parts|] == parts;
  }

  /** `scoreSubcategory`: the sum over the description words of each word's
      best contribution. */
  function Score(words: seq<string>, keywords: seq<string>, similar: (string, string) -> bool): nat {
    if words == [] then 0
    else Score(words[..|words| - 1], keywords, similar) + BestOverParts(words[|words| - 1], AllParts(keywords), similar)
  }

  /** Each word adds 0, 4, 6 or 10: the score is at most ten per word, and a
      positive score is at least the threshold. */
  lemma {:induction false} ScoreBounds(words: seq<string>, keywords: seq<string>, similar: (string, string) -> bool)
    ensures Score(words, keywords, similar) <= ScoreExact * |words|
    ensures Score(words, keywords, similar) == 0 || Score(words, keywords, similar) >= MinScore
  {
    if words != [] {
      ScoreBounds(words[..|words| - 1], keywords, similar);
      BestOverPartsIsMax(words[|words| - 1], AllParts(keywords), similar);
    }
  }

  /** A subcategory without keywords scores nothing. */
  lemma {:induction false} ScoreNoKeywords(words: seq<string>, similar: (string, string) -> bool)
    ensures Score(words, [], similar) == 0
  {
    if words != [] {
      ScoreNoKeywords(words[..|words| - 1], similar);
    }
  }

  lemma ScoreSnoc(words: seq<string>, w: string, keywords: seq<string>, similar: (string, string) -> bool)
    ensures Score(words + [w], keywords, similar)
      == Score(words, keywords, similar) + BestOverParts(w, AllParts(keywords), similar)
  {
    assert (words + [w])[..|words|] == words;
  }

  /** Scores of a concatenation add up: each word is scored on its own. */
  lemma {:induction false} ScoreAppend(a: seq<string>, b: seq<string>, keywords: seq<string>, similar: (string, string) -> bool)
    ensures Score(a + b, keywords, similar) == Score(a, keywords, similar) + Score(b, keywords, similar)
    decreases |b|
  {
    if b == [] {
      assert a + b == a;
    } else {
      var b', w := b[..|b| - 1], b[|b| - 1];
      assert b == b' + [w];
      assert a + b == (a + b') + [w];
      ScoreAppend(a, b', keywords, similar);
      ScoreSnoc(a + b', w, keywords, similar);
      ScoreSnoc(b', w, keywords, similar);
    }
  }

  /** Every matching part counts towards the score, for every word: an
      exact hit guarantees the exact score. */
  lemma {:induction false} ScoreAtLeastHit(words: seq<string>, keywords: seq<string>, similar: (string, string) -> bool,
                                           i: nat, part: string)
    requires i < |words| && part in AllParts(keywords)
    ensures Score(words, keywords, similar) >= PartScore(words[i], part, similar)
    decreases |words|
  {
    if i < |words| - 1 {
      var init := words[..|words| - 1];
      assert init[i] == words[i];
      ScoreAtLeastHit(init, keywords, similar, i, part);
    } else {
      BestOverPartsIsMax(words[i], AllParts(keywords), similar);
    }
  }

  /** The score is zero exactly when no word gets anything from any keyword
      part. */
  lemma {:induction false} ScoreZeroIff(words: seq<string>, keywords: seq<string>, similar: (string, string) -> bool)
    ensures Score(words, keywords, similar) == 0 <==>
      forall i, q :: 0 <= i < |words| && q in AllParts(keywords) ==> PartScore(words[i], q, similar) == 0
    decreases |words|
  {
    if Score(words, keywords, similar) == 0 {
      forall i, q | 0 <= i < |words| && q in AllParts(keywords)
        ensures PartScore(words[i], q, similar) == 0
      {
        ScoreAtLeastHit(words, keywords, similar, i, q);
      }
    } else {
      var init := words[..|words| - 1];
      var last := words[|words| - 1];
      BestOverPartsIsMax(last, AllParts(keywords), similar);
      if BestOverParts(last, AllParts(keywords), similar) == 0 {
        ScoreZeroIff(init, keywords, similar);
        var i, q :| 0 <= i < |init| && q in AllParts(keywords) && PartScore(init[i], q, similar) != 0;
        assert words[i] == init[i];
      }
    }
  }

  /** The innermost loop of `scoreSubcategory`: folds the contribution of each
      of `parts` into `bestScore`, which holds the best over `seen` on entry. */
  method BestOverPartsLoop(word: string, ghost seen: seq<string>, parts: seq<string>, similar: (string, string) -> bool, b0: nat)
    returns (bestScore: nat)
    requires b0 == BestOverParts(word, seen, similar)
    ensures bestScore == BestOverParts(word, seen + parts, similar)
  {
    bestScore := b0;
    assert seen + parts[..0] == seen;
    for p := 0 to |parts|
      invariant bestScore == BestOverParts(word, seen + parts[..p], similar)
    {
      var kwPart := parts[p];
      assert BestOverParts(word, seen + parts[..p + 1], similar)
          == Max(bestScore, PartScore(word, kwPart, similar)) by {
        assert seen + parts[..p + 1] == (seen + parts[..p]) + [kwPart];
        BestOverPartsSnoc(word, seen + parts[..p], kwPart, similar);
      }
      if |kwPart| < 3 {
        continue;
      }
      if word == kwPart {
        bestScore := Max(bestScore, ScoreExact);
        continue;
      }
      if |word| >= 4 && |kwPart| >= 4 {
        if Includes(word, kwPart) || Includes(kwPart, word) {
          bestScore := Max(bestScore, ScoreSubstring);
          continue;
        }
      }
      if |word| >= 4 && |kwPart| >= 4 {
        if similar(word, kwPart) {
          bestScore := Max(bestScore, ScoreFuzzy);
        }
      }
    }
    assert parts[..|parts|] == parts;
  }

  /** The loop over the keywords for one description word: the best
      contribution of any part of any keyword. */
  method BestForWord(word: string, keywords: seq<string>, similar: (string, string) -> bool)
    returns (bestScore: nat)
    ensures bestScore == BestOverParts(word, AllParts(keywords), similar)
  {
    bestScore := 0;
    for j := 0 to |keywords|
      invariant bestScore == BestOverParts(word, AllParts(keywords[..j]), similar)
    {
      var keywordParts := KeywordParts(keywords[j]);
      bestScore := BestOverPartsLoop(word, AllParts(keywords[..j]), keywordParts, similar, bestScore);
      AllPartsPrefix(keywords, j);
    }
    assert keywords[..|keywords|] == keywords;
  }

  /** `scoreSubcategory`: the sum over the description words of each word's
      best contribution. */
  method ScoreSubcategory(words: seq<string>, keywords: seq<string>, similar: (string, string) -> bool)
    returns (total: nat)
    ensures total == Score(words, keywords, similar)
  {
    total := 0;
    for i := 0 to |words|
      invariant total == Score(words[..i], keywords, similar)
    {
      var word := words[i];
      var bestScore := BestForWord(word, keywords, similar);
      assert Score(words[..i + 1], keywords, similar) == total + bestScore by {
        assert words[..i + 1] == words[..i] + [word];
        ScoreSnoc(words[..i], word, keywords, similar);
      }
      total := total + bestScore;
    }
    assert words[..|words|] == words;
  }

  // ------------------------------------------------------ classification

  /** The score of one catalog entry. */
  function EntryScore(words: seq<string>, entry: Entry, similar: (string, string) -> bool): nat {
    Score(words, entry.keywords, similar)
  }

  /** Entry `k` wins: it takes part in the scoring, reaches the threshold,
      scores at least as much as every other scored entry and strictly more
      than every scored entry before it. */
  ghost predicate IsWinner(catalog: seq<Entry>, words: seq<string>, similar: (string, string) -> bool, k: int) {
    && 0 <= k < |catalog|
    && !IsCatchAll(catalog[k].name)
    && EntryScore(words, catalog[k], similar) >= MinScore
    && (forall j :: 0 <= j < |catalog| && !IsCatchAll(catalog[j].name) ==>
          EntryScore(words, catalog[j], similar) <= EntryScore(words, catalog[k], similar))
    && (forall j :: 0 <= j < k && !IsCatchAll(catalog[j].name) ==>
          EntryScore(words, catalog[j], similar) < EntryScore(words, catalog[k], similar))
  }

  /** The tie-break makes the winner unique. */
  lemma WinnerUnique(catalog: seq<Entry>, words: seq<string>, similar: (string, string) -> bool, k1: int, k2: int)
    requires IsWinner(catalog, words, similar, k1) && IsWinner(catalog, words, similar, k2)
    ensures k1 == k2
  {
  }

  /** Some entry that takes part in the scoring gets a positive score. */
  ghost predicate AnyHit(catalog: seq<Entry>, words: seq<string>, similar: (string, string) -> bool) {
    exists j :: 0 <= j < |catalog| && !IsCatchAll(catalog[j].name) && EntryScore(words, catalog[j], similar) > 0
  }

  /** The score of every entry of the catalog, in catalog order. */
  ghost function EntryScores(catalog: seq<Entry>, words: seq<string>, similar: (string, string) -> bool): (scores: seq<nat>)
    ensures |scores| == |catalog|
  {
    if catalog == [] then []
    else EntryScores(catalog[..|catalog| - 1], words, similar) + [EntryScore(words, catalog[|catalog| - 1], similar)]
  }

  lemma {:induction false} EntryScoresAt(catalog: seq<Entry>, words: seq<string>, similar: (string, string) -> bool, j: int)
    requires 0 <= j < |catalog|
    ensures EntryScores(catalog, words, similar)[j] == EntryScore(words, catalog[j], similar)
  {
    if j < |catalog| - 1 {
      EntryScoresAt(catalog[..|catalog| - 1], words, similar, j);
    }
  }

  /** No entry before `i` that takes part in the scoring has a positive score. */
  ghost predicate NoneScored(catalog: seq<Entry>, scores: seq<nat>, i: int)
    requires |scores| == |catalog|
  {
    forall j :: 0 <= j < i && j < |catalog| && !IsCatchAll(catalog[j].name) ==> scores[j] == 0
  }

  /** Among the entries before `i` that take part in the scoring, entry `b`
      has the highest score and beats strictly every one before it. */
  ghost predicate LeaderBefore(catalog: seq<Entry>, scores: seq<nat>, i: int, b: int)
    requires |scores| == |catalog|
  {
    && 0 <= b < i <= |catalog|
    && !IsCatchAll(catalog[b].name)
    && (forall j :: 0 <= j < i && !IsCatchAll(catalog[j].name) ==> scores[j] <= scores[b])
    && (forall j :: 0 <= j < b && !IsCatchAll(catalog[j].name) ==> scores[j] < scores[b])
  }

  /** The leader over the whole catalog, when it reaches the threshold, is
      the winner. */
  lemma LeaderIsWinner(catalog: seq<Entry>, words: seq<string>, similar: (string, string) -> bool, b: int)
    requires LeaderBefore(catalog, EntryScores(catalog, words, similar), |catalog|, b)
    requires EntryScore(words, catalog[b], similar) >= MinScore
    ensures IsWinner(catalog, words, similar, b)
  {
    forall j | 0 <= j < |catalog|
      ensures EntryScores(catalog, words, similar)[j] == EntryScore(words, catalog[j], similar)
    {
      EntryScoresAt(catalog, words, similar, j);
    }
  }

  /** When no entry of the catalog that takes part scores, none hits. */
  lemma NoneScoredNoHit(catalog: seq<Entry>, words: seq<string>, similar: (string, string) -> bool)
    requires NoneScored(catalog, EntryScores(catalog, words, similar), |catalog|)
    ensures !AnyHit(catalog, words, similar)
  {
    forall j | 0 <= j < |catalog| && !IsCatchAll(catalog[j].name)
      ensures EntryScore(words, catalog[j], similar) == 0
    {
      EntryScoresAt(catalog, words, similar, j);
    }
  }

  /** The scoring loop of `classifyExpense` over the significant words of a
      description: the entry with the highest score, the earliest on ties,
      among those that take part, or nothing when none scores. */
  method BestEntry(words: seq<string>, catalog: seq<Entry>, similar: (string, string) -> bool)
    returns (bestCategory: Option<string>, bestScore: nat, ghost bestIndex: nat)
    ensures bestCategory.None? ==> bestScore == 0 && NoneScored(catalog, EntryScores(catalog, words, similar), |catalog|)
    ensures bestCategory.Some? ==>
      && LeaderBefore(catalog, EntryScores(catalog, words, similar), |catalog|, bestIndex)
      && bestCategory.value == catalog[bestIndex].name
      && bestScore == EntryScore(words, catalog[bestIndex], similar) > 0
  {
    bestCategory := None;
    bestScore := 0;
    bestIndex := 0;
    ghost var scores := EntryScores(catalog, words, similar);
    for i := 0 to |catalog|
      invariant bestCategory.None? ==> bestScore == 0 && NoneScored(catalog, scores, i)
      invariant bestCategory.Some? ==>
        && LeaderBefore(catalog, scores, i, bestIndex)
        && bestCategory.value == catalog[bestIndex].name
        && bestScore == scores[bestIndex] > 0
    {
      var entry := catalog[i];
      if IsCatchAll(entry.name) {
        continue;
      }
      var score := ScoreSubcategory(words, entry.keywords, similar);
      EntryScoresAt(catalog, words, similar, i);
      if score > bestScore {
        bestScore := score;
        bestCategory := Some(entry.name);
        bestIndex := i;
      }
    }
    if bestCategory.Some? {
      EntryScoresAt(catalog, words, similar, bestIndex);
    }
  }

  /** `classifyExpense` of the local classifier: the name of the winning
      subcategory, or nothing for an empty description, a description without
      significant words, or no entry reaching the threshold. */
  method ClassifyExpense(description: string, catalog: seq<Entry>, similar: (string, string) -> bool)
    returns (r: Option<string>)
    ensures ExtractWords(description) == [] ==> r == None
    ensures r.Some? ==> (!IsCatchAll(r.value) && r.value != ""
      && exists k :: IsWinner(catalog, ExtractWords(description), similar, k) && catalog[k].name == r.value)
    ensures (forall j :: 0 <= j < |catalog| ==> catalog[j].name != "") ==>
      (r.Some? <==> ExtractWords(description) != [] && AnyHit(catalog, ExtractWords(description), similar))
  {
    if description == [] {
      return None;
    }
    var words := ExtractWords(description);
    if |words| == 0 {
      return None;
    }
    var bestCategory, bestScore, bestIndex := BestEntry(words, catalog, similar);
    if bestScore >= MinScore && bestCategory.Some? && bestCategory.value != "" {
      LeaderIsWinner(catalog, words, similar, bestIndex);
      return bestCategory;
    }
    if bestCategory.None? {
      NoneScoredNoHit(catalog, words, similar);
    } else if bestScore < MinScore {
      ScoreBounds(words, catalog[bestIndex].keywords, similar);
    }
    return None;
  }
}
