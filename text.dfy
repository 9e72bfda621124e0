/** The string methods of Python that the data parser relies on, restricted to
    ASCII: `str.lower`, `str.strip`, `str.split`, `str.join` and `str.startswith`. */
module Text {

  /** Python's `str.isspace` on the ASCII range: space, the controls \t \n \v \f \r,
      and the separators U+001C to U+001F. */
  predicate IsSpace(c: char) {
    c == ' ' || ('\t' <= c <= '\r') || ('\U{1C}' <= c <= '\U{1F}')
  }

  /** ASCII case folding of one character. */
  function LowerChar(c: char): char {
    if 'A' <= c <= 'Z' then (c as int - 'A' as int + 'a' as int) as char else c
  }

  /** `s.lower()`: every upper-case ASCII letter replaced by its lower-case form. */
  function Lower(s: string): (r: string)
    ensures |r| == |s|
    ensures forall i :: 0 <= i < |s| ==> r[i] == LowerChar(s[i])
  {
    if s == [] then [] else [LowerChar(s[0])] + Lower(s[1..])
  }

  /** Lower-casing twice is lower-casing once. */
  lemma LowerIdempotent(s: string)
    ensures Lower(Lower(s)) == Lower(s)
  {
    assert forall i :: 0 <= i < |s| ==> LowerChar(LowerChar(s[i])) == LowerChar(s[i]);
  }

  /** `s.startswith(prefix)`. */
  predicate StartsWith(s: string, prefix: string) {
    |prefix| <= |s| && s[..|prefix|] == prefix
  }

  /** Leading whitespace removed. */
  function TrimStart(s: string): (r: string)
    ensures |r| <= |s| && r == s[|s| - |r|..]
    ensures r == [] || !IsSpace(r[0])
    decreases |s|
  {
    if s != [] && IsSpace(s[0]) then TrimStart(s[1..]) else s
  }

  /** Trailing whitespace removed. */
  function TrimEnd(s: string): (r: string)
    ensures |r| <= |s| && r == s[..|r|]
    ensures r == [] || !IsSpace(r[|r| - 1])
    decreases |s|
  {
    if s != [] && IsSpace(s[|s| - 1]) then TrimEnd(s[..|s| - 1]) else s
  }

  /** `s.strip()`: a piece of `s` that neither starts nor ends with whitespace. */
  function Strip(s: string): (r: string)
    ensures r == [] || (!IsSpace(r[0]) && !IsSpace(r[|r| - 1]))
    ensures forall c :: c in r ==> c in s
  {
    TrimEnd(TrimStart(s))
  }

  /** Stripping a string whose ends are not whitespace leaves it as it is. */
  lemma StripClean(s: string)
    requires s == [] || (!IsSpace(s[0]) && !IsSpace(s[|s| - 1]))
    ensures Strip(s) == s
  {
  }

  /** What `TrimStart` removes is whitespace. */
  lemma {:induction false} TrimStartSpaces(s: string)
    ensures forall i :: 0 <= i < |s| - |TrimStart(s)| ==> IsSpace(s[i])
    decreases |s|
  {
    if s != [] && IsSpace(s[0]) {
      TrimStartSpaces(s[1..]);
      assert forall i :: 1 <= i < |s| ==> s[i] == s[1..][i - 1];
    }
  }

  /** What `TrimEnd` removes is whitespace. */
  lemma {:induction false} TrimEndSpaces(s: string)
    ensures forall i :: |TrimEnd(s)| <= i < |s| ==> IsSpace(s[i])
    decreases |s|
  {
    if s != [] && IsSpace(s[|s| - 1]) {
      TrimEndSpaces(s[..|s| - 1]);
      assert forall i :: 0 <= i < |s| - 1 ==> s[i] == s[..|s| - 1][i];
    }
  }

  /** Every character of `s` is whitespace. */
  predicate AllSpace(s: string) {
    forall i :: 0 <= i < |s| ==> IsSpace(s[i])
  }

  /** `s` is the whitespace `TrimStart` removed followed by what it kept. */
  lemma TrimStartSplit(s: string) returns (a: string)
    ensures s == a + TrimStart(s) && AllSpace(a)
  {
    TrimStartSpaces(s);
    a := s[..|s| - |TrimStart(s)|];
    assert forall i :: 0 <= i < |a| ==> a[i] == s[i];
  }

  /** `s` is what `TrimEnd` kept followed by the whitespace it removed. */
  lemma TrimEndSplit(s: string) returns (b: string)
    ensures s == TrimEnd(s) + b && AllSpace(b)
  {
    TrimEndSpaces(s);
    b := s[|TrimEnd(s)|..];
    assert forall i :: 0 <= i < |b| ==> b[i] == s[|TrimEnd(s)| + i];
  }

  /** Splitting the tail of a split sequence again gives a three-way split. */
  lemma SplitTwice(s: string, a: string, t: string, r: string, b: string)
    requires s == a + t && t == r + b
    ensures s == a + r + b
  {
    assert a + (r + b) == a + r + b;
  }

  /** The whitespace `strip` removes in front of and behind what it keeps. */
  lemma StripSplit(s: string) returns (a: string, b: string)
    ensures s == a + Strip(s) + b && AllSpace(a) && AllSpace(b)
  {
    a := TrimStartSplit(s);
    b := TrimEndSplit(TrimStart(s));
    SplitTwice(s, a, TrimStart(s), Strip(s), b);
  }

  /** `strip` removes only surrounding whitespace: `s` is the stripped string with some
      whitespace before it and some after it. */
  lemma StripSurrounding(s: string)
    ensures exists a, b :: s == a + Strip(s) + b && AllSpace(a) && AllSpace(b)
  {
    var a, b := StripSplit(s);
  }

  /** A leading space makes no difference to `strip`. */
  lemma StripLeadingSpace(s: string)
    ensures Strip(" " + s) == Strip(s)
  {
    assert (" " + s)[1..] == s;
  }

  /** A piece that is a clean string with one space in front strips to that string. */
  lemma StripSpacedPiece(piece: string, name: string)
    requires piece == " " + name && Strip(name) == name
    ensures Strip(piece) == name
  {
    StripLeadingSpace(name);
  }

  /** The position of the first occurrence of `x` in `xs`, as Python's `index` gives it. */
  function IndexOf<T(==)>(xs: seq<T>, x: T): (i: nat)
    requires x in xs
    ensures i < |xs| && xs[i] == x && x !in xs[..i]
  {
    if xs[0] == x then 0 else 1 + IndexOf(xs[1..], x)
  }

  /** The first occurrence is the only position with `x` before which `x` does not occur. */
  lemma IndexOfUnique<T>(xs: seq<T>, x: T, i: nat)
    requires i < |xs| && xs[i] == x && x !in xs[..i]
    ensures IndexOf(xs, x) == i
  {
    var k := IndexOf(xs, x);
    assert forall j :: 0 <= j < i ==> xs[..i][j] == xs[j];
    assert forall j :: 0 <= j < k ==> xs[..k][j] == xs[j];
  }

  /** Appending an element moves no first occurrence, and places a new element last. */
  lemma IndexOfSnoc<T>(xs: seq<T>, y: T)
    ensures forall x :: x in xs ==> IndexOf(xs + [y], x) == IndexOf(xs, x)
    ensures y !in xs ==> IndexOf(xs + [y], y) == |xs|
  {
    var ys := xs + [y];
    forall x | x in xs ensures IndexOf(ys, x) == IndexOf(xs, x) {
      var i := IndexOf(xs, x);
      assert ys[..i] == xs[..i];
      IndexOfUnique(ys, x, i);
    }
    if y !in xs {
      assert ys[..|xs|] == xs;
      IndexOfUnique(ys, y, |xs|);
    }
  }

  /** `s.split(sep)`: the pieces of `s` between occurrences of `sep`, at least one. */
  function Split(s: string, sep: char): (parts: seq<string>)
    ensures |parts| >= 1
    ensures forall k :: 0 <= k < |parts| ==> sep !in parts[k]
    decreases |s|
  {
    if sep in s then
      var i := IndexOf(s, sep);
      [s[..i]] + Split(s[i + 1..], sep)
    else
      [s]
  }

  /** `sep.join(parts)`. */
  function Join(parts: seq<string>, sep: string): string
    decreases |parts|
  {
    if parts == [] then ""
    else if |parts| == 1 then parts[0]
    else parts[0] + sep + Join(parts[1..], sep)
  }

  /** Splitting at a separator that the first piece does not contain peels that piece off. */
  lemma SplitAtFirst(head: string, sep: char, rest: string)
    requires sep !in head
    ensures Split(head + [sep] + rest, sep) == [head] + Split(rest, sep)
  {
    var s := head + [sep] + rest;
    assert s[|head|] == sep;
    assert forall k :: 0 <= k < |head| ==> s[k] == head[k];
    var i := IndexOf(s, sep);
    assert i == |head|;
    assert s[..i] == head && s[i + 1..] == rest;
  }

  /** Joining a piece in front of at least one other puts a separator between them. */
  lemma JoinCons(head: string, tail: seq<string>, sep: string)
    requires |tail| >= 1
    ensures Join([head] + tail, sep) == head + sep + Join(tail, sep)
  {
    assert ([head] + tail)[1..] == tail;
  }

  /** Joining the pieces of a split gives the string back. */
  lemma {:induction false} JoinSplit(s: string, sep: char)
    ensures Join(Split(s, sep), [sep]) == s
    decreases |s|
  {
    if sep in s {
      var i := IndexOf(s, sep);
      var head, rest := s[..i], s[i + 1..];
      var tail := Split(rest, sep);
      assert Split(s, sep) == [head] + tail;
      JoinSplit(rest, sep);
      calc {
        Join(Split(s, sep), [sep]);
        Join([head] + tail, [sep]);
        { JoinCons(head, tail, [sep]); }
        head + [sep] + Join(tail, [sep]);
        head + [sep] + rest;
        { assert s == head + [sep] + rest; }
        s;
      }
    }
  }

  /** Splitting a join of pieces free of the separator gives the pieces back. */
  lemma {:induction false} SplitJoin(parts: seq<string>, sep: char)
    requires |parts| >= 1
    requires forall k :: 0 <= k < |parts| ==> sep !in parts[k]
    ensures Split(Join(parts, [sep]), sep) == parts
    decreases |parts|
  {
    if |parts| > 1 {
      SplitJoin(parts[1..], sep);
      SplitAtFirst(parts[0], sep, Join(parts[1..], [sep]));
      assert parts == [parts[0]] + parts[1..];
    }
  }

  /** Every piece with a space in front. */
  function Spaced(parts: seq<string>): (r: seq<string>)
    ensures |r| == |parts|
    ensures forall k :: 0 <= k < |parts| ==> r[k] == " " + parts[k]
  {
    seq(|parts|, k requires 0 <= k < |parts| => " " + parts[k])
  }

  lemma {:induction false} JoinSpaced(parts: seq<string>)
    requires |parts| >= 1
    ensures Join(Spaced(parts), ",") == " " + Join(parts, ", ")
    decreases |parts|
  {
    if |parts| > 1 {
      JoinSpaced(parts[1..]);
      assert Spaced(parts)[1..] == Spaced(parts[1..]);
    }
  }

  /** A `", "`-join is a `","`-join of the same pieces with a space in front of all but the first. */
  lemma JoinCommaSpace(parts: seq<string>)
    requires |parts| >= 1
    ensures Join([parts[0]] + Spaced(parts[1..]), ",") == Join(parts, ", ")
  {
    var pieces := [parts[0]] + Spaced(parts[1..]);
    if |parts| > 1 {
      JoinSpaced(parts[1..]);
      assert pieces[1..] == Spaced(parts[1..]);
      assert |pieces| > 1 && pieces[0] == parts[0];
      var a, b := parts[0], Join(parts[1..], ", ");
      assert Join(pieces, ",") == a + "," + (" " + b);
      CommaThenSpace(a, b);
    }
  }

  lemma CommaThenSpace(a: string, b: string)
    ensures a + "," + (" " + b) == a + ", " + b
  {
    assert "," + " " == ", ";
    assert a + "," + (" " + b) == a + ("," + " ") + b;
  }

  /** Splitting a `", "`-join at the commas gives the first piece and the others with
      their separating space still in front. */
  lemma SplitCommaSpaceJoin(parts: seq<string>)
    requires |parts| >= 1
    requires forall k :: 0 <= k < |parts| ==> ',' !in parts[k]
    ensures Split(Join(parts, ", "), ',') == [parts[0]] + Spaced(parts[1..])
  {
    var pieces := [parts[0]] + Spaced(parts[1..]);
    JoinCommaSpace(parts);
    forall k | 0 <= k < |pieces| ensures ',' !in pieces[k] {
      if k > 0 {
        assert pieces[k] == " " + parts[k];
      }
    }
    assert [','] == ",";
    SplitJoin(pieces, ',');
  }
}
