/** The avatar initials shown on a user card: the name is split on spaces,
    each piece contributes its first character, and the characters are joined
    with nothing between them. */
module UserCard {
  import opened StringSplit

  /** What one piece contributes: its first character, or nothing when the
      piece is empty (its first character is `undefined`, which joins as ""). */
  function Head(token: string): (r: string)
    ensures r <= token && |r| <= 1
    ensures r == "" <==> token == ""
  {
    if token == "" then "" else [token[0]]
  }

  /** The contributions of the pieces, joined in order with no separator. */
  function JoinHeads(tokens: seq<string>): (r: string)
    ensures |r| <= |tokens|
  {
    if tokens == [] then "" else Head(tokens[0]) + JoinHeads(tokens[1..])
  }

  /** The initials displayed for `name`. They hold no space, only characters
      of the name, and are no longer than the name. */
  function Initials(name: string): (r: string)
    ensures ' ' !in r && |r| <= |name|
    ensures forall i :: 0 <= i < |r| ==> r[i] in name
  {
    ScanMatchesSplit(name);
    JoinHeads(Split(name, ' '))
  }

  // ---------------------------------------------------------------------------
  // A reference definition: scanning for word starts

  /** The characters of `s` that begin a word, that is, the non-space
      characters at the start of `s` when `afterSpace` holds or right after
      a space. */
  function WordStartsFrom(s: string, afterSpace: bool): (r: string)
    ensures |r| <= |s|
    ensures ' ' !in r
    ensures forall i :: 0 <= i < |r| ==> r[i] in s
    decreases |s|
  {
    if s == [] then ""
    else
      var rest := WordStartsFrom(s[1..], s[0] == ' ');
      assert forall i :: 0 <= i < |rest| ==> rest[i] in s by {
        forall i | 0 <= i < |rest| ensures rest[i] in s {
          assert rest[i] in s[1..];
        }
      }
      (if s[0] != ' ' && afterSpace then [s[0]] else "") + rest
  }

  /** The word starts of a whole name. */
  function WordStarts(name: string): string
  {
    WordStartsFrom(name, true)
  }

  /** The scan agrees with the pieces of the split: after a space it sees all
      pieces, in the middle of a word it sees all pieces but the current one. */
  lemma {:induction false} ScanMatchesSplit(s: string)
    ensures WordStartsFrom(s, true) == JoinHeads(Split(s, ' '))
    ensures WordStartsFrom(s, false) == JoinHeads(Split(s, ' ')[1..])
    decreases |s|
  {
    if s != [] {
      ScanMatchesSplit(s[1..]);
      var rest := Split(s[1..], ' ');
      if s[0] == ' ' {
        assert Split(s, ' ') == [""] + rest;
        assert Split(s, ' ')[1..] == rest;
        assert JoinHeads([""] + rest) == "" + JoinHeads(rest);
      } else {
        var parts := Split(s, ' ');
        assert parts == [[s[0]] + rest[0]] + rest[1..];
        assert parts[1..] == rest[1..];
        assert Head(parts[0]) == [s[0]];
      }
    }
  }

  /** The initials are exactly the characters that begin a word of the name. */
  lemma InitialsAreWordStarts(name: string)
    ensures Initials(name) == WordStarts(name)
  {
    ScanMatchesSplit(name);
  }

  // ---------------------------------------------------------------------------
  // Properties of the initials

  /** The non-empty pieces, in order. */
  function NonEmpty(tokens: seq<string>): (r: seq<string>)
    ensures forall i :: 0 <= i < |r| ==> r[i] != ""
  {
    if tokens == [] then []
    else if tokens[0] == "" then NonEmpty(tokens[1..])
    else [tokens[0]] + NonEmpty(tokens[1..])
  }

  /** One character per non-empty piece: its first, in piece order. */
  lemma {:induction false} JoinHeadsOfNonEmpty(tokens: seq<string>)
    ensures |JoinHeads(tokens)| == |NonEmpty(tokens)|
    ensures forall i :: 0 <= i < |NonEmpty(tokens)| ==> JoinHeads(tokens)[i] == NonEmpty(tokens)[i][0]
    decreases |tokens|
  {
    if tokens != [] {
      JoinHeadsOfNonEmpty(tokens[1..]);
    }
  }

  /** The initials are the first characters of the non-empty space-separated
      pieces of the name, in order; empty pieces contribute nothing. */
  lemma InitialsAreTokenHeads(name: string)
    ensures var tokens := NonEmpty(Split(name, ' '));
      && |Initials(name)| == |tokens|
      && forall i :: 0 <= i < |tokens| ==> Initials(name)[i] == tokens[i][0]
  {
    JoinHeadsOfNonEmpty(Split(name, ' '));
  }

  /** Joining contributions distributes over concatenation of piece lists. */
  lemma {:induction false} JoinHeadsAppend(x: seq<string>, y: seq<string>)
    ensures JoinHeads(x + y) == JoinHeads(x) + JoinHeads(y)
    decreases |x|
  {
    if x == [] {
      assert x + y == y;
    } else {
      assert (x + y)[1..] == x[1..] + y;
      JoinHeadsAppend(x[1..], y);
    }
  }

  /** The initials of two parts joined by a space are the initials of each
      part, one after the other. */
  lemma InitialsConcat(a: string, b: string)
    ensures Initials(a + " " + b) == Initials(a) + Initials(b)
  {
    SplitConcat(a, b, ' ');
    JoinHeadsAppend(Split(a, ' '), Split(b, ' '));
  }

  /** An empty name has empty initials. */
  lemma EmptyName()
    ensures Initials("") == ""
  {
  }

  /** A leading space makes an empty first piece, which contributes nothing. */
  lemma LeadingSpaceIgnored(b: string)
    ensures Initials(" " + b) == Initials(b)
  {
    var a := "";
    InitialsConcat(a, b);
    assert a + " " + b == " " + b;
  }

  /** A trailing space makes an empty last piece, which contributes nothing. */
  lemma TrailingSpaceIgnored(a: string)
    ensures Initials(a + " ") == Initials(a)
  {
    var b := "";
    InitialsConcat(a, b);
    assert a + " " + b == a + " ";
  }

  /** A doubled space makes an empty middle piece, which contributes nothing. */
  lemma DoubledSpaceIgnored(a: string, b: string)
    ensures Initials(a + "  " + b) == Initials(a + " " + b)
  {
    InitialsConcat(a, " " + b);
    assert a + " " + (" " + b) == a + "  " + b;
    LeadingSpaceIgnored(b);
    InitialsConcat(a, b);
  }

  /** A name without spaces gives its first character, or nothing when empty. */
  lemma SingleWord(word: string)
    requires ' ' !in word
    ensures Initials(word) == Head(word)
  {
    SplitPrefix(word, "", ' ');
    assert Split("", ' ') == [""];
    assert word + "" == word;
    assert Split(word, ' ') == [word];
    assert JoinHeads([word]) == Head(word) + JoinHeads([]);
  }

  /** A single-word name gives its first letter. */
  lemma SingleWordName()
    ensures Initials("Madonna") == "M"
  {
  }

  /** Two words separated by one space give the first letter of each word. */
  lemma TwoWords(first: string, last: string)
    requires ' ' !in first && ' ' !in last && first != "" && last != ""
    ensures Initials(first + " " + last) == [first[0], last[0]]
  {
    SingleWord(first);
    SingleWord(last);
    InitialsConcat(first, last);
  }

  /** The sample name gives "LG". */
  lemma TwoWordName()
    ensures Initials("Leanne Graham") == "LG"
  {
    var name := "Leanne Graham";
    var first, last := name[..6], name[7..];
    assert first + " " + last == name;
    TwoWords(first, last);
  }
}
