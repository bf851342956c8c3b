/** Stand-ins for the handful of Swift `String` services the book list uses:
    `lowercased()`, `contains(_:)`, the `<` ordering and
    `components(separatedBy: " ")`. Strings are sequences of characters;
    lower-casing covers ASCII letters only. */
module Text {

  /** `Character.lowercased()` restricted to ASCII: upper-case letters map to
      their lower-case forms, every other character is left alone. */
  function LowerChar(c: char): (d: char)
    ensures !('A' <= d <= 'Z')
    ensures d != c ==> 'A' <= c <= 'Z'
    ensures 'A' <= c <= 'Z' ==> 'a' <= d <= 'z'
  {
    if 'A' <= c <= 'Z' then (c as int + 32) as char else c
  }

  /** `String.lowercased()`: the same string, character by character lowered.
      No capital is left, and only capitals change. */
  function Lower(s: string): (r: string)
    ensures |r| == |s|
    ensures forall i :: 0 <= i < |r| ==> !('A' <= r[i] <= 'Z')
    ensures forall i :: 0 <= i < |s| && r[i] != s[i] ==> 'A' <= s[i] <= 'Z'
  {
    seq(|s|, i requires 0 <= i < |s| => LowerChar(s[i]))
  }

  /** Lower-casing a string is lower-casing its first character and then
      the rest. */
  lemma LowerCons(c: char, t: string)
    ensures Lower([c] + t) == [LowerChar(c)] + Lower(t)
  {
  }

  /** Lower-casing twice is lower-casing once. */
  lemma LowerIdempotent(s: string)
    ensures Lower(Lower(s)) == Lower(s)
  {
  }

  /** Lower-casing maps the space separator to itself and nothing else to it. */
  lemma LowerKeepsSpaces(c: char)
    ensures LowerChar(c) == ' ' <==> c == ' '
  {
  }

  predicate IsPrefix(needle: string, hay: string) {
    |needle| <= |hay| && hay[..|needle|] == needle
  }

  /** `needle` occurs as a contiguous run of characters somewhere in `hay`. */
  predicate IsSubstring(needle: string, hay: string)
    decreases |hay|
  {
    IsPrefix(needle, hay) || (|hay| > 0 && IsSubstring(needle, hay[1..]))
  }

  /** Whatever surrounds an occurrence, the occurrence is found. */
  lemma {:induction false} SubstringOfConcat(before: string, needle: string, after: string)
    ensures IsSubstring(needle, before + needle + after)
    decreases |before|
  {
    var hay := before + needle + after;
    if before == [] {
      assert hay[..|needle|] == needle;
    } else {
      assert hay[1..] == before[1..] + needle + after;
      SubstringOfConcat(before[1..], needle, after);
    }
  }

  /** An occurrence is contiguous: it never needs more characters than the
      string it is found in. */
  lemma {:induction false} SubstringNoLonger(needle: string, hay: string)
    requires IsSubstring(needle, hay)
    ensures |needle| <= |hay|
    decreases |hay|
  {
    if !IsPrefix(needle, hay) {
      SubstringNoLonger(needle, hay[1..]);
    }
  }

  /** The converse of `SubstringOfConcat`: a contained needle is an
      occurrence with something before it and something after it. */
  lemma SubstringHasOccurrence(needle: string, hay: string)
    requires IsSubstring(needle, hay)
    ensures exists before, after :: hay == before + needle + after
  {
    var before, after := Occurrence(needle, hay);
  }

  /** The text before and after the first occurrence of `needle`. */
  lemma {:induction false} Occurrence(needle: string, hay: string) returns (before: string, after: string)
    requires IsSubstring(needle, hay)
    ensures hay == before + needle + after
    decreases |hay|
  {
    if IsPrefix(needle, hay) {
      before, after := [], hay[|needle|..];
      assert hay == hay[..|needle|] + hay[|needle|..];
    } else {
      var b, a := Occurrence(needle, hay[1..]);
      before, after := [hay[0]] + b, a;
      assert hay == [hay[0]] + hay[1..];
    }
  }

  /** Every character of an occurrence is a character of the string it
      occurs in. */
  lemma {:induction false} SubstringCharacters(needle: string, hay: string)
    requires IsSubstring(needle, hay)
    ensures forall c :: c in needle ==> c in hay
    decreases |hay|
  {
    if IsPrefix(needle, hay) {
      forall c | c in needle ensures c in hay {
        var i :| 0 <= i < |needle| && needle[i] == c;
        assert hay[i] == c;
      }
    } else {
      SubstringCharacters(needle, hay[1..]);
    }
  }

  /** A needle holding a character the string lacks does not occur in it. */
  lemma MissingCharacterNotSubstring(needle: string, hay: string, c: char)
    requires c in needle && c !in hay
    ensures !IsSubstring(needle, hay)
  {
    if IsSubstring(needle, hay) {
      SubstringCharacters(needle, hay);
    }
  }

  /** The ordering `String <`: lexicographic by character code, a proper
      prefix coming first. */
  predicate Less(a: string, b: string)
    ensures Less(a, b) ==> a != b
    decreases |a|
  {
    if a == [] then b != []
    else if b == [] then false
    else a[0] < b[0] || (a[0] == b[0] && Less(a[1..], b[1..]))
  }

  lemma {:induction false} LessTransitive(a: string, b: string, c: string)
    requires Less(a, b) && Less(b, c)
    ensures Less(a, c)
    decreases |a|
  {
    if a != [] && a[0] == b[0] && b[0] == c[0] {
      LessTransitive(a[1..], b[1..], c[1..]);
    }
  }

  /** Any two distinct strings are ordered one way or the other. */
  lemma {:induction false} LessTotal(a: string, b: string)
    requires a != b
    ensures Less(a, b) || Less(b, a)
    decreases |a|
  {
    if a != [] && b != [] && a[0] == b[0] {
      assert a == [a[0]] + a[1..] && b == [b[0]] + b[1..];
      LessTotal(a[1..], b[1..]);
    }
  }

  /** `components(separatedBy: " ")`: the pieces between single spaces, empty
      pieces included, so there is always at least one piece and none of
      them contains a space. */
  function Split(s: string): (r: seq<string>)
    ensures |r| >= 1
    ensures forall k :: 0 <= k < |r| ==> ' ' !in r[k]
    decreases |s|
  {
    if s == [] then [[]]
    else
      var rest := Split(s[1..]);
      if s[0] == ' ' then [[]] + rest
      else [[s[0]] + rest[0]] + rest[1..]
  }

  /** One step of splitting: a leading space starts a new, empty first piece;
      any other leading character joins the first piece of the rest. */
  lemma SplitCons(c: char, t: string)
    ensures Split([c] + t) ==
      if c == ' ' then [[]] + Split(t) else [[c] + Split(t)[0]] + Split(t)[1..]
  {
    assert ([c] + t)[1..] == t;
  }

  /** Glue pieces back together with one space between neighbours. */
  function Join(parts: seq<string>): string
    requires |parts| >= 1
    decreases |parts|
  {
    if |parts| == 1 then parts[0] else parts[0] + [' '] + Join(parts[1..])
  }

  /** Splitting loses nothing: joining the pieces gives back the string. */
  lemma {:induction false} JoinSplit(s: string)
    ensures Join(Split(s)) == s
    decreases |s|
  {
    if s != [] {
      var rest := Split(s[1..]);
      JoinSplit(s[1..]);
      if s[0] == ' ' {
        assert Split(s) == [[]] + rest;
        assert Split(s)[1..] == rest;
      } else {
        var r := Split(s);
        assert r == [[s[0]] + rest[0]] + rest[1..];
        if |rest| == 1 {
          assert Join(r) == [s[0]] + rest[0];
        } else {
          assert r[1..] == rest[1..];
          assert Join(r) == [s[0]] + rest[0] + [' '] + Join(rest[1..]);
        }
      }
    }
  }

  /** A piece followed by a space splits off as the first piece. */
  lemma {:induction false} SplitAtSpace(piece: string, rest: string)
    requires ' ' !in piece
    ensures Split(piece + [' '] + rest) == [piece] + Split(rest)
    decreases |piece|
  {
    var s := piece + [' '] + rest;
    if piece == [] {
      assert s[1..] == rest;
    } else {
      assert s[1..] == piece[1..] + [' '] + rest;
      SplitAtSpace(piece[1..], rest);
      assert Split(s[1..])[0] == piece[1..];
      assert [piece[0]] + piece[1..] == piece;
    }
  }

  /** A string without spaces is one piece. */
  lemma {:induction false} SplitNoSpace(piece: string)
    requires ' ' !in piece
    ensures Split(piece) == [piece]
    decreases |piece|
  {
    if piece != [] {
      SplitNoSpace(piece[1..]);
      assert [piece[0]] + piece[1..] == piece;
    }
  }

  /** Joining space-free pieces and splitting again gives back the pieces. */
  lemma {:induction false} SplitJoin(parts: seq<string>)
    requires |parts| >= 1
    requires forall k :: 0 <= k < |parts| ==> ' ' !in parts[k]
    ensures Split(Join(parts)) == parts
    decreases |parts|
  {
    if |parts| == 1 {
      SplitNoSpace(parts[0]);
    } else {
      SplitJoin(parts[1..]);
      SplitAtSpace(parts[0], Join(parts[1..]));
      assert [parts[0]] + parts[1..] == parts;
    }
  }
}
