/** Capitalisation helpers applied to descriptions before they are stored. */
module Helpers {
  import opened Strings

  /** `word.charAt(0).toUpperCase() + word.slice(1)`. */
  function CapitalizeFirst(w: string): string {
    if w == [] then [] else [UpperChar(w[0])] + w[1..]
  }

  /** Sentence case: the first character is not a lower-case letter and no
      later character is an upper-case letter. */
  predicate SentenceCased(s: string) {
    s != [] && !IsLower(s[0]) && forall i :: 1 <= i < |s| ==> !IsUpper(s[i])
  }

  /** True when `s` is empty or white space only (`trim()` leaves nothing). */
  predicate Blank(s: string) {
    forall k :: 0 <= k < |s| ==> IsSpace(s[k])
  }

  /** `capitalizeSentence`: the empty string and blank strings come back as
      given; any other string is trimmed and put in sentence case, keeping its
      letters up to case. */
  function CapitalizeSentence(sentence: string): (r: string)
    ensures Blank(sentence) ==> r == sentence
    ensures !Blank(sentence) ==>
      |r| == |Trim(sentence)| && SentenceCased(r) && Lower(r) == Lower(Trim(sentence))
  {
    if sentence == [] then sentence
    else
      var trimmed := Lower(Trim(sentence));
      if |trimmed| == 0 then sentence
      else
        var t := Trim(sentence);
        var r := CapitalizeFirst(trimmed);
        LowerCharFacts(t[0]);
        UpperCharFacts(trimmed[0]);
        forall i | 0 <= i < |r| ensures Lower(r)[i] == Lower(t)[i] && (i > 0 ==> !IsUpper(r[i])) {
          LowerCharFacts(t[i]);
        }
        r
  }

  /** The contract of CapitalizeSentence determines its result: the only
      sentence-cased string that equals the trimmed input up to case is the
      one it returns. */
  lemma CapitalizeSentenceUnique(sentence: string, t: string)
    requires !Blank(sentence)
    requires SentenceCased(t) && Lower(t) == Lower(Trim(sentence))
    ensures t == CapitalizeSentence(sentence)
  {
    var r := CapitalizeSentence(sentence);
    assert |t| == |r|;
    forall i | 0 <= i < |t| ensures t[i] == r[i] {
      assert Lower(t)[i] == Lower(r)[i];
      SameLowerCase(t[i], r[i]);
    }
  }

  /** Capitalising a stored description again changes nothing. */
  lemma CapitalizeSentenceIdempotent(sentence: string)
    requires !Blank(sentence)
    ensures CapitalizeSentence(CapitalizeSentence(sentence)) == CapitalizeSentence(sentence)
  {
    var r := CapitalizeSentence(sentence);
    var t := Trim(sentence);
    var last := |r| - 1;
    assert |r| == |t| && |Lower(r)| == |r| && |Lower(t)| == |t|;
    assert !IsSpace(r[0]) by {
      assert Lower(r)[0] == Lower(t)[0];
      LowerCharFacts(r[0]);
      LowerCharFacts(t[0]);
    }
    assert !IsSpace(r[last]) by {
      assert Lower(r)[last] == Lower(t)[last];
      LowerCharFacts(r[last]);
      LowerCharFacts(t[last]);
    }
    TrimTrimmed(r);
    CapitalizeSentenceUnique(r, r);
  }

  /** Every character after a space, and the first one, upper-cased; the
      others kept. */
  ghost function CapitalizeAfterSpaces(t: string): (r: string) {
    seq(|t|, i requires 0 <= i < |t| => if i == 0 || t[i - 1] == ' ' then UpperChar(t[i]) else t[i])
  }

  /** `capitalizeWords`: lower-case, split on single spaces, capitalise each
      piece, join with single spaces. */
  function CapitalizeWords(sentence: string): string {
    if sentence == [] then sentence
    else
      Join(CapitalizeEach(SplitOn(Lower(sentence), ' ')), ' ')
  }

  function CapitalizeEach(words: seq<string>): seq<string> {
    seq(|words|, i requires 0 <= i < |words| => CapitalizeFirst(words[i]))
  }

  lemma AfterSpacesSplit(t: string, k: nat)
    requires k < |t| && t[k] == ' ' && ' ' !in t[..k]
    ensures CapitalizeAfterSpaces(t)
      == CapitalizeFirst(t[..k]) + [' '] + CapitalizeAfterSpaces(t[k + 1..])
  {
    var r := CapitalizeAfterSpaces(t);
    var rest := t[k + 1..];
    var c := CapitalizeFirst(t[..k]) + [' '] + CapitalizeAfterSpaces(rest);
    assert |c| == |r|;
    var first := CapitalizeFirst(t[..k]);
    assert |first| == k;
    forall i | 0 <= i < |r| ensures r[i] == c[i] {
      if i < k {
        assert c[i] == first[i];
        assert first[i] == if i == 0 then UpperChar(t[i]) else t[i];
        if i > 0 {
          assert t[i - 1] == t[..k][i - 1];
        }
      } else if i > k {
        var j := i - (k + 1);
        assert c[i] == CapitalizeAfterSpaces(rest)[j];
        assert rest[j] == t[i];
        if j > 0 {
          assert rest[j - 1] == t[i - 1];
        }
      }
    }
  }

  lemma {:induction false} JoinCapitalizedPieces(t: string)
    ensures Join(CapitalizeEach(SplitOn(t, ' ')), ' ') == CapitalizeAfterSpaces(t)
    decreases |t|
  {
    if ' ' in t {
      var k := IndexOf(t, ' ');
      var rest := t[k + 1..];
      JoinCapitalizedPieces(rest);
      assert t == t[..k] + [' '] + rest;
      SplitOnCons(t[..k], ' ', rest);
      CapitalizeEachJoinCons(t[..k], SplitOn(rest, ' '));
      AfterSpacesSplit(t, k);
    } else {
      assert CapitalizeEach([t]) == [CapitalizeFirst(t)];
    }
  }

  lemma CapitalizeEachJoinCons(w: string, ws: seq<string>)
    requires |ws| >= 1
    ensures Join(CapitalizeEach([w] + ws), ' ') == CapitalizeFirst(w) + [' '] + Join(CapitalizeEach(ws), ' ')
  {
    var caps := CapitalizeEach([w] + ws);
    assert caps[1..] == CapitalizeEach(ws);
  }

  /** `capitalizeWords` upper-cases exactly the first character and every
      character that follows a space, lower-cases the others, and keeps the
      length and the place of every space. */
  lemma CapitalizeWordsAt(sentence: string, i: int)
    requires 0 <= i < |sentence|
    ensures |CapitalizeWords(sentence)| == |sentence|
    ensures CapitalizeWords(sentence)[i]
      == if i == 0 || sentence[i - 1] == ' ' then UpperChar(LowerChar(sentence[i])) else LowerChar(sentence[i])
    ensures CapitalizeWords(sentence)[i] == ' ' <==> sentence[i] == ' '
  {
    JoinCapitalizedPieces(Lower(sentence));
    LowerCharFacts(sentence[i]);
    if i > 0 { LowerCharFacts(sentence[i - 1]); }
    UpperCharFacts(LowerChar(sentence[i]));
  }
}
