/** Normalising the features of a property listing. The listing API sends
    `Caracteristicas` either as an array of strings or as one comma-joined
    string (or not at all); the result table always wants a list of
    strings. */
module Characteristics {

  /** What can arrive in the field: nothing (undefined or null), an array,
      or a string. */
  datatype Raw = Missing | List(items: seq<string>) | Text(text: string)

  /** The characters JavaScript's `String.prototype.trim` removes: the
      white-space characters and the line terminators. */
  predicate IsWhitespace(ch: char) {
    ch == '\t' || ch == '\n' || ch == '\U{B}' || ch == '\U{C}' || ch == '\r' || ch == ' ' ||
    ch == '\U{A0}' || ch == '\U{1680}' || ('\U{2000}' <= ch <= '\U{200A}') ||
    ch == '\U{2028}' || ch == '\U{2029}' || ch == '\U{202F}' || ch == '\U{205F}' ||
    ch == '\U{3000}' || ch == '\U{FEFF}'
  }

  ghost predicate AllWhitespace(s: string) {
    forall i :: 0 <= i < |s| ==> IsWhitespace(s[i])
  }

  /** Neither end of `s` is white space. */
  predicate IsTrimmed(s: string) {
    s == [] || (!IsWhitespace(s[0]) && !IsWhitespace(s[|s| - 1]))
  }

  /** How many white-space characters `s` starts with. */
  function LeadingSpace(s: string): (n: nat)
    ensures n <= |s|
    ensures forall i :: 0 <= i < n ==> IsWhitespace(s[i])
    ensures n < |s| ==> !IsWhitespace(s[n])
  {
    if s == [] || !IsWhitespace(s[0]) then 0 else 1 + LeadingSpace(s[1..])
  }

  /** How many white-space characters `s` ends with. */
  function TrailingSpace(s: string): (n: nat)
    ensures n <= |s|
    ensures forall i :: |s| - n <= i < |s| ==> IsWhitespace(s[i])
    ensures n < |s| ==> !IsWhitespace(s[|s| - 1 - n])
  {
    if s == [] || !IsWhitespace(s[|s| - 1]) then 0 else 1 + TrailingSpace(s[..|s| - 1])
  }

  /** `s.trim()`: the part of `s` left between its leading and its trailing
      white space. */
  function Trim(s: string): (r: string)
    ensures |r| <= |s| && IsTrimmed(r)
  {
    var i := LeadingSpace(s);
    if i == |s| then [] else s[i..|s| - TrailingSpace(s)]
  }

  /** `Trim` cuts white space, and only white space, off both ends: its
      result is the slice between the returned positions. */
  lemma TrimBounds(s: string) returns (i: nat, j: nat)
    ensures i <= j <= |s| && Trim(s) == s[i..j]
    ensures AllWhitespace(s[..i]) && AllWhitespace(s[j..])
  {
    i := LeadingSpace(s);
    j := if i == |s| then |s| else |s| - TrailingSpace(s);
    assert forall k :: 0 <= k < i ==> s[..i][k] == s[k];
    assert forall k :: 0 <= k < |s| - j ==> s[j..][k] == s[j + k];
  }

  /** Leading white space in front of a string that starts with something
      else is exactly what `LeadingSpace` counts. */
  lemma LeadingSpacePadded(w: string, t: string)
    requires AllWhitespace(w)
    requires t == [] || !IsWhitespace(t[0])
    ensures LeadingSpace(w + t) == |w|
  {
    var s := w + t;
    var n := LeadingSpace(s);
    assert forall k :: 0 <= k < |w| ==> s[k] == w[k];
    assert t != [] ==> s[|w|] == t[0];
  }

  /** Trailing white space behind a string that ends with something else is
      exactly what `TrailingSpace` counts. */
  lemma TrailingSpacePadded(t: string, w: string)
    requires AllWhitespace(w)
    requires t == [] || !IsWhitespace(t[|t| - 1])
    ensures TrailingSpace(t + w) == |w|
  {
    var s := t + w;
    var n := TrailingSpace(s);
    assert forall k :: |t| <= k < |s| ==> s[k] == w[k - |t|];
    assert t != [] ==> s[|t| - 1] == t[|t| - 1];
  }

  /** `Trim` recovers any trimmed string from any white-space padding around
      it, so its result is the one trimmed core of its input. */
  lemma TrimPadded(w1: string, t: string, w2: string)
    requires AllWhitespace(w1) && AllWhitespace(w2) && IsTrimmed(t)
    ensures Trim(w1 + t + w2) == t
  {
    var s := w1 + t + w2;
    if t == [] {
      assert s == w1 + w2;
      LeadingSpacePadded(w1 + w2, []);
      assert w1 + w2 + [] == w1 + w2;
    } else {
      assert s == w1 + (t + w2);
      LeadingSpacePadded(w1, t + w2);
      TrailingSpacePadded(w1 + t, w2);
      assert s[|w1|..|s| - |w2|] == t;
    }
  }

  /** Trimming twice is trimming once. */
  lemma TrimIdempotent(s: string)
    ensures Trim(Trim(s)) == Trim(s)
  {
    var t := Trim(s);
    assert t == [] + t + [];
    TrimPadded([], t, []);
  }

  /** Trimming adds no character. */
  lemma TrimOmits(s: string, ch: char)
    requires ch !in s
    ensures ch !in Trim(s)
  {
  }

  /** Joins `parts` with `sep` between consecutive parts:
      `parts.join(sep)`. */
  function JoinWith(parts: seq<string>, sep: char): string {
    if parts == [] then []
    else if |parts| == 1 then parts[0]
    else parts[0] + [sep] + JoinWith(parts[1..], sep)
  }

  /** The first position of `ch` in `s`, which must hold it. */
  function IndexOf(s: string, ch: char): (i: nat)
    requires ch in s
    ensures i < |s| && s[i] == ch && ch !in s[..i]
  {
    if s[0] == ch then 0
    else
      assert ch in s[1..] by { assert s == [s[0]] + s[1..]; }
      var j := IndexOf(s[1..], ch);
      assert s[..j + 1] == [s[0]] + s[1..][..j];
      j + 1
  }

  /** `s.split(sep)`: the pieces of `s` between occurrences of `sep`. There
      is always one piece more than there are separators, no piece holds the
      separator, and joining the pieces gives `s` back. */
  function SplitOn(s: string, sep: char): (r: seq<string>)
    ensures |r| == multiset(s)[sep] + 1
    ensures forall p :: p in r ==> sep !in p
    ensures JoinWith(r, sep) == s
    decreases |s|
  {
    if sep !in s then
      assert multiset(s)[sep] == 0;
      [s]
    else
      var i := IndexOf(s, sep);
      var head, tail := s[..i], s[i + 1..];
      assert s == head + [sep] + tail;
      assert multiset(s) == multiset(head) + multiset([sep]) + multiset(tail);
      assert multiset(head)[sep] == 0;
      var rest := SplitOn(tail, sep);
      assert ([head] + rest)[1..] == rest;
      [head] + rest
  }

  /** Splitting a string with no separator in it gives that string alone. */
  lemma SplitOnNone(s: string, sep: char)
    requires sep !in s
    ensures SplitOn(s, sep) == [s]
  {
  }

  /** Splitting at the first separator peels off the piece in front. */
  lemma SplitOnFirst(a: string, b: string, sep: char)
    requires sep !in a
    ensures SplitOn(a + [sep] + b, sep) == [a] + SplitOn(b, sep)
  {
    var s := a + [sep] + b;
    assert s[|a|] == sep;
    var i := IndexOf(s, sep);
    assert s[..i] == a && s[i + 1..] == b;
  }

  /** Splitting undoes joining, for pieces that do not hold the separator;
      with `JoinWith(SplitOn(s, sep), sep) == s` this makes the two inverse. */
  lemma {:induction false} SplitOnJoinWith(parts: seq<string>, sep: char)
    requires parts != []
    requires forall p :: p in parts ==> sep !in p
    ensures SplitOn(JoinWith(parts, sep), sep) == parts
  {
    if |parts| == 1 {
      SplitOnNone(parts[0], sep);
    } else {
      assert parts[0] in parts;
      SplitOnJoinWith(parts[1..], sep);
      SplitOnFirst(parts[0], JoinWith(parts[1..], sep), sep);
      assert parts == [parts[0]] + parts[1..];
    }
  }

  /** Cuts `text` at every comma and trims each piece: one trimmed,
      comma-free piece per comma-separated field of `text`. */
  function SplitAndTrim(text: string): (r: seq<string>)
    ensures |r| == multiset(text)[','] + 1
    ensures forall i :: 0 <= i < |r| ==> IsTrimmed(r[i]) && ',' !in r[i]
    ensures forall i :: 0 <= i < |r| ==> r[i] == Trim(SplitOn(text, ',')[i])
  {
    var pieces := SplitOn(text, ',');
    var r := seq(|pieces|, i requires 0 <= i < |pieces| => Trim(pieces[i]));
    assert forall i :: 0 <= i < |r| ==> ',' !in r[i] by {
      forall i | 0 <= i < |r|
        ensures ',' !in r[i]
      {
        assert pieces[i] in pieces;
        TrimOmits(pieces[i], ',');
      }
    }
    r
  }

  /** `formatCharacteristics`: nothing, or an empty string, gives no
      features; an array is taken as it is; a string without a comma is
      one feature, untrimmed; a string with commas is cut at every comma
      and each piece trimmed. */
  function FormatCharacteristics(raw: Raw): (r: seq<string>)
    ensures raw.Missing? ==> r == []
    ensures raw.List? ==> r == raw.items
    ensures raw.Text? && raw.text == [] ==> r == []
    ensures raw.Text? && raw.text != [] && ',' !in raw.text ==> r == [raw.text]
    ensures raw.Text? && ',' in raw.text ==>
              |r| == multiset(raw.text)[','] + 1 &&
              forall i :: 0 <= i < |r| ==> IsTrimmed(r[i]) && ',' !in r[i]
  {
    match raw
    case Missing => []
    case List(items) => items
    case Text(text) =>
      if text == [] then []
      else if ',' in text then SplitAndTrim(text)
      else [text]
  }

  /** A comma-joined string with k commas gives k + 1 features: for any
      way of writing the string as comma-free pieces joined by commas, the
      features are those pieces, in order, each trimmed. */
  lemma FormatCharacteristicsPieces(text: string, pieces: seq<string>)
    requires ',' in text
    requires pieces != [] && JoinWith(pieces, ',') == text
    requires forall p :: p in pieces ==> ',' !in p
    ensures |FormatCharacteristics(Text(text))| == |pieces|
    ensures forall i :: 0 <= i < |pieces| ==> FormatCharacteristics(Text(text))[i] == Trim(pieces[i])
  {
    SplitOnJoinWith(pieces, ',');
  }
}
