/**
 * The avatar initials of the page header
 * (frontend/src/components/dashboard/Header.js, `getInitials`): split the
 * name at each space, take the first character of every piece, join them,
 * upper-case the result, and fall back to "U" when that is empty or the name
 * is missing.
 *
 * Characters are taken one by one; upper-casing covers the ASCII letters.
 */
module Header {
  import opened Wrappers

  /** `s.split(' ')`: the pieces between spaces, empty ones included; at least one piece. */
  function Split(s: string): (pieces: seq<string>)
    ensures |pieces| >= 1
    ensures forall p :: p in pieces ==> ' ' !in p
  {
    if s == [] then [""]
    else
      var rest := Split(s[1..]);
      if s[0] == ' ' then [""] + rest
      else
        assert rest[0] in rest;
        assert forall p :: p in rest[1..] ==> p in rest;
        [[s[0]] + rest[0]] + rest[1..]
  }

  /** The pieces with a space between each two. */
  function Join(pieces: seq<string>): string
    requires |pieces| >= 1
  {
    if |pieces| == 1 then pieces[0] else pieces[0] + " " + Join(pieces[1..])
  }

  /** Splitting loses nothing: joining the pieces gives the name back. */
  lemma {:induction false} SplitJoin(s: string)
    ensures Join(Split(s)) == s
  {
    if s != [] {
      var rest := Split(s[1..]);
      SplitJoin(s[1..]);
      if s[0] != ' ' {
        var pieces := Split(s);
        assert pieces[0] == [s[0]] + rest[0] && pieces[1..] == rest[1..];
        if |rest| > 1 {
          assert rest == [rest[0]] + rest[1..];
        }
        assert s == [s[0]] + s[1..];
      } else {
        assert s == " " + s[1..];
      }
    }
  }

  /** Splitting a join of space-free pieces gives those pieces back. */
  lemma {:induction false} JoinSplit(pieces: seq<string>)
    requires |pieces| >= 1 && forall p :: p in pieces ==> ' ' !in p
    ensures Split(Join(pieces)) == pieces
  {
    if |pieces| == 1 {
      PieceSplit(pieces[0], []);
    } else {
      JoinSplit(pieces[1..]);
      PieceSplit(pieces[0], pieces[1..]);
    }
  }

  /** A space-free piece in front of a space, or alone, splits off as the first piece. */
  lemma {:induction false} PieceSplit(p: string, more: seq<string>)
    requires ' ' !in p && (|more| >= 1 ==> Split(Join(more)) == more)
    ensures |more| == 0 ==> Split(p) == [p]
    ensures |more| >= 1 ==> Split(p + " " + Join(more)) == [p] + more
  {
    if p != [] {
      PieceSplit(p[1..], more);
      if |more| >= 1 {
        assert (p + " " + Join(more))[1..] == p[1..] + " " + Join(more);
      }
      assert [p[0]] + p[1..] == p;
    } else if |more| >= 1 {
      assert p + " " + Join(more) == " " + Join(more);
      assert (" " + Join(more))[1..] == Join(more);
    }
  }

  /** The non-empty pieces. */
  function Words(pieces: seq<string>): (words: seq<string>)
    ensures |words| <= |pieces|
    ensures forall w :: w in words ==> w != "" && w in pieces
    ensures forall k :: 0 <= k < |words| ==> |words[k]| > 0
  {
    if pieces == [] then []
    else
      var rest := Words(pieces[1..]);
      assert forall w :: w in rest ==> w in pieces;
      if pieces[0] == "" then rest else [pieces[0]] + rest
  }

  /** `map(word => word[0]).join('')`: an empty piece gives `undefined`, which `join` writes as nothing. */
  function FirstLetters(pieces: seq<string>): string {
    if pieces == [] then ""
    else (if pieces[0] == "" then "" else [pieces[0][0]]) + FirstLetters(pieces[1..])
  }

  /** The joined letters are the first letters of the non-empty pieces, in order. */
  lemma {:induction false} FirstLettersOfWords(pieces: seq<string>)
    ensures |FirstLetters(pieces)| == |Words(pieces)|
    ensures forall k :: 0 <= k < |Words(pieces)| ==> FirstLetters(pieces)[k] == Words(pieces)[k][0]
  {
    if pieces != [] {
      FirstLettersOfWords(pieces[1..]);
    }
  }

  /** A name has a word exactly when it has a character other than a space. */
  lemma {:induction false} WordsOfSplit(s: string)
    ensures Words(Split(s)) == [] <==> forall i :: 0 <= i < |s| ==> s[i] == ' '
  {
    if s != [] {
      WordsOfSplit(s[1..]);
      var rest := Split(s[1..]);
      if s[0] != ' ' {
        assert Split(s)[0] != "";
      } else {
        assert Split(s)[1..] == rest;
        assert forall i :: 1 <= i < |s| ==> s[i] == s[1..][i - 1];
      }
    }
  }

  /** `toUpperCase` on one character: the ASCII lower-case letters move to upper case. */
  function UpperChar(c: char): (u: char)
    ensures 'a' <= c <= 'z' ==> 'A' <= u <= 'Z' && u as int == c as int - 32
    ensures !('a' <= c <= 'z') ==> u == c
  {
    if 'a' <= c <= 'z' then (c as int - 32) as char else c
  }

  /** `toUpperCase` on a string, character by character. */
  function Upper(s: string): (r: string)
    ensures |r| == |s|
    ensures forall i :: 0 <= i < |s| ==> r[i] == UpperChar(s[i])
  {
    if s == [] then "" else [UpperChar(s[0])] + Upper(s[1..])
  }

  /** Upper-casing twice is upper-casing once. */
  lemma UpperIdempotent(s: string)
    ensures Upper(Upper(s)) == Upper(s)
  {
    assert forall i :: 0 <= i < |s| ==> UpperChar(UpperChar(s[i])) == UpperChar(s[i]);
  }

  /** getInitials: "U" for a missing name or one without letters, else the upper-cased first letters; never empty. */
  function GetInitials(name: Option<string>): (r: string)
    ensures r != ""
    ensures name.None? ==> r == "U"
    ensures name.Some? ==> r == "U" || |r| <= |Split(name.value)|
  {
    match name
    case None => "U"
    case Some(s) =>
      var initials := Upper(FirstLetters(Split(s)));
      FirstLettersOfWords(Split(s));
      if initials == "" then "U" else initials
  }

  /** An empty or all-space name falls back to "U". */
  lemma InitialsOfBlankName(s: string)
    requires forall i :: 0 <= i < |s| ==> s[i] == ' '
    ensures GetInitials(Some(s)) == "U"
  {
    WordsOfSplit(s);
    FirstLettersOfWords(Split(s));
  }

  /** Any other name gives one upper-cased letter per word, the word's first, in order. */
  lemma InitialsAreWordStarts(s: string)
    requires exists i :: 0 <= i < |s| && s[i] != ' '
    ensures var words := Words(Split(s));
      |GetInitials(Some(s))| == |words| >= 1
      && forall k :: 0 <= k < |words| ==> GetInitials(Some(s))[k] == UpperChar(words[k][0])
  {
    WordsOfSplit(s);
    FirstLettersOfWords(Split(s));
  }
}
