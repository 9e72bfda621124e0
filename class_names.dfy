/** The normalisation `clean_classes` applies to one record's "classes" string: split and
    strip, case-fold, de-duplicate, optionally repair entries that start with a valid name,
    drop what is still invalid, order by the valid list, restore its casing, join. */
module ClassNames {
  import opened Text
  import opened Values

  /** `_lowercase_list(lst)`. */
  function LowercaseList(xs: seq<string>): (r: seq<string>)
    ensures |r| == |xs|
    ensures forall i :: 0 <= i < |xs| ==> r[i] == Lower(xs[i])
  {
    seq(|xs|, i requires 0 <= i < |xs| => Lower(xs[i]))
  }

  /** Every element `_lowercase_list` returns is already lower-case. */
  lemma LowercaseListLowered(xs: seq<string>)
    ensures forall i :: 0 <= i < |xs| ==> Lower(LowercaseList(xs)[i]) == LowercaseList(xs)[i]
  {
    forall i | 0 <= i < |xs| ensures Lower(LowercaseList(xs)[i]) == LowercaseList(xs)[i] {
      LowerIdempotent(xs[i]);
    }
  }

  /** `_to_list(classes)`: the comma-separated entries, each stripped; there is always one. */
  function ToList(classes: string): (r: seq<string>)
    ensures |r| == |Split(classes, ',')| >= 1
    ensures forall i :: 0 <= i < |r| ==> r[i] == Strip(Split(classes, ',')[i])
  {
    var parts := Split(classes, ',');
    seq(|parts|, i requires 0 <= i < |parts| => Strip(parts[i]))
  }

  /** Every entry `_to_list` returns is plain: no comma in it, no whitespace around it. */
  lemma ToListPlain(classes: string)
    ensures forall i :: 0 <= i < |ToList(classes)| ==> Plain(ToList(classes)[i])
  {
    StripPlain(Split(classes, ','));
  }

  /** Comma-free pieces strip to plain names. */
  lemma StripPlain(parts: seq<string>)
    requires forall k :: 0 <= k < |parts| ==> ',' !in parts[k]
    ensures forall k :: 0 <= k < |parts| ==> Plain(Strip(parts[k]))
  {
    forall k | 0 <= k < |parts| ensures Plain(Strip(parts[k])) {
      StripClean(Strip(parts[k]));
    }
  }

  /** `_to_str(classes)`. */
  function ToStr(names: seq<string>): string {
    Join(names, ", ")
  }

  /** A name that `_to_str` and `_to_list` carry through unchanged: no comma in it, and no
      whitespace around it. */
  predicate Plain(name: string) {
    ',' !in name && Strip(name) == name
  }

  /** Plain names survive `_to_str` then `_to_list`. */
  lemma ToListToStr(names: seq<string>)
    requires |names| >= 1
    requires forall k :: 0 <= k < |names| ==> Plain(names[k])
    ensures ToList(ToStr(names)) == names
  {
    SplitCommaSpaceJoin(names);
    ToListOfPieces(ToStr(names), names);
  }

  /** A string that splits into the names, all but the first with a space in front, lists
      as the names. */
  lemma ToListOfPieces(s: string, names: seq<string>)
    requires |names| >= 1 && Split(s, ',') == [names[0]] + Spaced(names[1..])
    requires forall k :: 0 <= k < |names| ==> Plain(names[k])
    ensures ToList(s) == names
  {
    var parts := Split(s, ',');
    forall k | 0 <= k < |names| ensures ToList(s)[k] == names[k] {
      StripPiece(parts, names, k);
    }
  }

  /** Piece `k` of a `", "`-join, split at the commas, strips to name `k`. */
  lemma StripPiece(parts: seq<string>, names: seq<string>, k: nat)
    requires |names| >= 1 && parts == [names[0]] + Spaced(names[1..])
    requires k < |names| && Plain(names[k])
    ensures Strip(parts[k]) == names[k]
  {
    if k == 0 {
      StripFirstPiece(parts, names);
    } else {
      StripLaterPiece(parts, names, k);
    }
  }

  lemma StripFirstPiece(parts: seq<string>, names: seq<string>)
    requires |names| >= 1 && parts == [names[0]] + Spaced(names[1..]) && Plain(names[0])
    ensures Strip(parts[0]) == names[0]
  {
  }

  lemma StripLaterPiece(parts: seq<string>, names: seq<string>, k: nat)
    requires |names| >= 1 && parts == [names[0]] + Spaced(names[1..])
    requires 0 < k < |names| && Plain(names[k])
    ensures Strip(parts[k]) == names[k]
  {
    StripSpacedPiece(parts[k], names[k]);
  }

  /** `set(xs)`. */
  function SetOf(xs: seq<string>): (s: set<string>)
    ensures forall x :: x in s <==> x in xs
  {
    set x | x in xs
  }

  /** How many entries of `vcl` the entry `c` starts with: the number of times the test on
      line 122 succeeds for `c`. Entries are counted by position, duplicates included. */
  function PrefixMatches(c: string, vcl: seq<string>): (n: nat)
    ensures n <= |vcl|
    ensures n == 0 <==> forall j :: 0 <= j < |vcl| ==> !StartsWith(c, vcl[j])
    decreases |vcl|
  {
    if vcl == [] then 0
    else
      var init := vcl[..|vcl| - 1];
      assert forall j :: 0 <= j < |init| ==> init[j] == vcl[j];
      PrefixMatches(c, init) + (if StartsWith(c, vcl[|vcl| - 1]) then 1 else 0)
  }

  /** Counting over a prefix of `vcl` counts no more than over all of it. */
  lemma {:induction false} PrefixMatchesPrefix(c: string, vcl: seq<string>, j: nat)
    requires j <= |vcl|
    ensures PrefixMatches(c, vcl[..j]) <= PrefixMatches(c, vcl)
    decreases |vcl| - j
  {
    if j < |vcl| {
      PrefixMatchesPrefix(c, vcl, j + 1);
      assert vcl[..j + 1][..j] == vcl[..j];
    } else {
      assert vcl[..j] == vcl;
    }
  }

  /** The first entry of `vcl` that `c` starts with. */
  function MatchedName(c: string, vcl: seq<string>): (v: string)
    requires PrefixMatches(c, vcl) >= 1
    ensures v in vcl && StartsWith(c, v)
    decreases |vcl|
  {
    var init := vcl[..|vcl| - 1];
    if PrefixMatches(c, init) >= 1 then
      assert forall x :: x in init ==> x in vcl;
      MatchedName(c, init)
    else vcl[|vcl| - 1]
  }

  /** An entry that starts with exactly one entry of `vcl` is matched to that one. */
  lemma {:induction false} OnlyMatch(c: string, vcl: seq<string>, j: nat)
    requires PrefixMatches(c, vcl) == 1 && j < |vcl| && StartsWith(c, vcl[j])
    ensures MatchedName(c, vcl) == vcl[j]
    decreases |vcl|
  {
    var init := vcl[..|vcl| - 1];
    if j < |vcl| - 1 {
      assert init[j] == vcl[j];
      assert PrefixMatches(c, init) >= 1;
      OnlyMatch(c, init, j);
    }
  }

  /** The invalid entries the correction loop replaces: those with exactly one match. */
  function Fixed(invalid: set<string>, vcl: seq<string>): (r: set<string>)
    ensures forall c :: c in r <==> c in invalid && PrefixMatches(c, vcl) == 1
  {
    set c | c in invalid && PrefixMatches(c, vcl) == 1
  }

  /** The valid names those entries are replaced by. */
  function Replacements(invalid: set<string>, vcl: seq<string>): (r: set<string>)
    ensures forall v :: v in r ==> v in vcl
    ensures forall c :: c in invalid && PrefixMatches(c, vcl) == 1 ==> MatchedName(c, vcl) in r
  {
    set c | c in invalid && PrefixMatches(c, vcl) == 1 :: MatchedName(c, vcl)
  }

  /** `unique_classes` after the correction loop of lines 120-125: every invalid entry with
      one match replaced by it; or the KeyError that the second `remove(c)` raises for an
      invalid entry with two or more matches (the loop has no `break`). */
  function Corrected(unique: set<string>, vcl: seq<string>): (r: Result<set<string>>)
  {
    var invalid := unique - SetOf(vcl);
    if exists c :: c in invalid && PrefixMatches(c, vcl) >= 2 then Err(KeyErrorOnRemove)
    else Ok(unique - Fixed(invalid, vcl) + Replacements(invalid, vcl))
  }

  /** The only exception the correction raises is the KeyError of `remove`; when it does not
      raise, every valid entry is kept and every added name is a valid one. */
  lemma CorrectedKeeps(unique: set<string>, vcl: seq<string>)
    ensures Corrected(unique, vcl).Err? ==> Corrected(unique, vcl).error == KeyErrorOnRemove
    ensures Corrected(unique, vcl).Ok? ==> forall x :: x in unique && x in vcl ==> x in Corrected(unique, vcl).value
    ensures Corrected(unique, vcl).Ok? ==> forall x :: x in Corrected(unique, vcl).value ==> x in unique || x in vcl
  {
  }

  /** The correction ends without an exception when no invalid entry has two matches. */
  lemma CorrectedCompletes(unique: set<string>, vcl: seq<string>, classes: set<string>)
    requires forall c :: c in unique - SetOf(vcl) ==> PrefixMatches(c, vcl) <= 1
    requires classes == unique - Fixed(unique - SetOf(vcl), vcl) + Replacements(unique - SetOf(vcl), vcl)
    ensures Corrected(unique, vcl) == Ok(classes)
  {
  }

  /** One invalid entry with two matches makes the correction raise. */
  lemma CorrectedFails(unique: set<string>, vcl: seq<string>, c: string)
    requires c in unique - SetOf(vcl) && PrefixMatches(c, vcl) >= 2
    ensures Corrected(unique, vcl) == Err(KeyErrorOnRemove)
  {
  }

  /** Adding one more processed entry to the correction loop's bookkeeping. */
  lemma FixedAdd(done: set<string>, c: string, vcl: seq<string>)
    ensures Fixed(done + {c}, vcl) == if PrefixMatches(c, vcl) == 1 then Fixed(done, vcl) + {c} else Fixed(done, vcl)
  {
  }

  /** Adding one more processed entry adds its match, if it has exactly one, to the names
      the loop adds. */
  lemma ReplacementsAdd(done: set<string>, c: string, vcl: seq<string>)
    ensures Replacements(done + {c}, vcl) ==
      if PrefixMatches(c, vcl) == 1 then Replacements(done, vcl) + {MatchedName(c, vcl)} else Replacements(done, vcl)
  {
    ReplacementsGrow(done, c, vcl);
    ReplacementsOnlyAdd(done, c, vcl);
  }

  /** Processing more entries keeps the names already added. */
  lemma ReplacementsGrow(done: set<string>, c: string, vcl: seq<string>)
    ensures Replacements(done, vcl) <= Replacements(done + {c}, vcl)
  {
    forall v | v in Replacements(done, vcl) ensures v in Replacements(done + {c}, vcl) {
      var d :| d in done && PrefixMatches(d, vcl) == 1 && MatchedName(d, vcl) == v;
      assert d in done + {c};
    }
  }

  /** Processing one more entry adds at most its own match. */
  lemma ReplacementsOnlyAdd(done: set<string>, c: string, vcl: seq<string>)
    ensures forall v :: v in Replacements(done + {c}, vcl) ==>
      v in Replacements(done, vcl) || (PrefixMatches(c, vcl) == 1 && v == MatchedName(c, vcl))
  {
    forall v | v in Replacements(done + {c}, vcl)
      ensures v in Replacements(done, vcl) || (PrefixMatches(c, vcl) == 1 && v == MatchedName(c, vcl))
    {
      var d :| d in done + {c} && PrefixMatches(d, vcl) == 1 && MatchedName(d, vcl) == v;
      if d != c {
        assert d in done;
      }
    }
  }

  /** The correction loop's set once `c` has been processed, given the set before. */
  lemma CorrectedStep(unique: set<string>, vcl: seq<string>, done: set<string>, c: string)
    requires c in unique && c !in vcl && c !in done
    ensures c in unique - Fixed(done, vcl) + Replacements(done, vcl)
    ensures PrefixMatches(c, vcl) == 0 ==>
      unique - Fixed(done, vcl) + Replacements(done, vcl) == unique - Fixed(done + {c}, vcl) + Replacements(done + {c}, vcl)
    ensures PrefixMatches(c, vcl) == 1 ==>
      (unique - Fixed(done, vcl) + Replacements(done, vcl)) - {c} + {MatchedName(c, vcl)} ==
      unique - Fixed(done + {c}, vcl) + Replacements(done + {c}, vcl)
  {
    FixedAdd(done, c, vcl);
    ReplacementsAdd(done, c, vcl);
    var fixedBefore, replBefore := Fixed(done, vcl), Replacements(done, vcl);
    assert c !in fixedBefore && c !in replBefore;
    if PrefixMatches(c, vcl) == 1 {
      SwapStep(unique, fixedBefore, replBefore, c, MatchedName(c, vcl));
    }
  }

  lemma SwapStep(unique: set<string>, fixedBefore: set<string>, replBefore: set<string>, c: string, v: string)
    requires c !in replBefore && c != v
    ensures (unique - fixedBefore + replBefore) - {c} + {v} == unique - (fixedBefore + {c}) + (replBefore + {v})
  {
  }

  /** Lines 121-125 for one invalid entry `c`: each valid name it starts with, in order,
      triggers `remove(c)` (raising KeyError once `c` is gone) and `add(vc)`. */
  method CorrectEntry(classes: set<string>, c: string, vcl: seq<string>) returns (r: Result<set<string>>)
    requires c in classes && c !in vcl
    ensures PrefixMatches(c, vcl) >= 2 ==> r == Err(KeyErrorOnRemove)
    ensures PrefixMatches(c, vcl) == 1 ==> r == Ok(classes - {c} + {MatchedName(c, vcl)})
    ensures PrefixMatches(c, vcl) == 0 ==> r == Ok(classes)
  {
    var current := classes;
    for j := 0 to |vcl|
      invariant PrefixMatches(c, vcl[..j]) <= 1
      invariant PrefixMatches(c, vcl[..j]) == 0 ==> current == classes
      invariant PrefixMatches(c, vcl[..j]) == 1 ==> current == classes - {c} + {MatchedName(c, vcl[..j])}
    {
      assert vcl[..j + 1][..j] == vcl[..j];
      if StartsWith(c, vcl[j]) {
        if c !in current {
          PrefixMatchesPrefix(c, vcl, j + 1);
          return Err(KeyErrorOnRemove);
        }
        current := current - {c};
        current := current + {vcl[j]};
      }
    }
    assert vcl[..|vcl|] == vcl;
    return Ok(current);
  }

  /** The bookkeeping of the correction loop: the entries `done` have been processed, none
      with two matches, and `classes` is `unique` with those that have one match replaced. */
  predicate CorrectedSoFar(unique: set<string>, vcl: seq<string>, done: set<string>, classes: set<string>) {
    && (forall c :: c in done ==> PrefixMatches(c, vcl) <= 1)
    && classes == unique - Fixed(done, vcl) + Replacements(done, vcl)
  }

  /** Processing one more invalid entry without an exception keeps the bookkeeping. */
  lemma CorrectedSoFarStep(unique: set<string>, vcl: seq<string>, done: set<string>, classes: set<string>, c: string, next: set<string>)
    requires CorrectedSoFar(unique, vcl, done, classes)
    requires c in unique && c !in vcl && c !in done
    requires PrefixMatches(c, vcl) == 1 ==> next == classes - {c} + {MatchedName(c, vcl)}
    requires PrefixMatches(c, vcl) == 0 ==> next == classes
    requires PrefixMatches(c, vcl) <= 1
    ensures c in classes
    ensures CorrectedSoFar(unique, vcl, done + {c}, next)
  {
    CorrectedStep(unique, vcl, done, c);
  }

  /** Lines 120-125: every invalid entry, taken in an arbitrary order as a set's are, run
      through the inner loop on the valid names. */
  method CorrectPartialNames(unique: set<string>, vcl: seq<string>) returns (r: Result<set<string>>)
    ensures r == Corrected(unique, vcl)
  {
    var invalid := unique - SetOf(vcl);
    var classes := unique;
    var remaining := invalid;
    ghost var done: set<string> := {};
    assert Fixed({}, vcl) == {} && Replacements({}, vcl) == {};
    while remaining != {}
      invariant remaining + done == invalid && remaining !! done
      invariant CorrectedSoFar(unique, vcl, done, classes)
      decreases remaining
    {
      var c :| c in remaining;
      var step := CorrectEntry(classes, c, vcl);
      if step.Err? {
        CorrectedFails(unique, vcl, c);
        return step;
      }
      CorrectedSoFarStep(unique, vcl, done, classes, c, step.value);
      classes := step.value;
      remaining := remaining - {c};
      done := done + {c};
    }
    assert done == invalid;
    CorrectedCompletes(unique, vcl, classes);
    return Ok(classes);
  }

  /** The entries of a set that occur in `vs`, each once, in the order of its first
      occurrence in `vs`. */
  function FirstOccurrences(s: set<string>, vs: seq<string>): (r: seq<string>)
    ensures forall x :: x in r <==> x in s && x in vs
    ensures forall i, j :: 0 <= i < j < |r| ==> IndexOf(vs, r[i]) < IndexOf(vs, r[j])
    decreases |vs|
  {
    if vs == [] then []
    else
      var init := vs[..|vs| - 1];
      var last := vs[|vs| - 1];
      assert vs == init + [last];
      IndexOfSnoc(init, last);
      var r := FirstOccurrences(s, init);
      if last in s && last !in init then r + [last] else r
  }

  /** Line 133, `sorted(s, key=vcl.index)` for a set of entries of `vcl`: every element
      exactly once, in strictly increasing order of first position in `vcl`. */
  function SortedByPosition(s: set<string>, vcl: seq<string>): (r: seq<string>)
    requires forall x :: x in s ==> x in vcl
    ensures SetOf(r) == s
    ensures forall i :: 0 <= i < |r| ==> r[i] in vcl
    ensures forall i, j :: 0 <= i < j < |r| ==> IndexOf(vcl, r[i]) < IndexOf(vcl, r[j])
  {
    FirstOccurrences(s, vcl)
  }

  /** Line 135: a lower-cased valid name becomes the entry of `vc` at its first position in
      the lower-cased list, which lower-cases back to it. */
  function Recase(names: seq<string>, vc: seq<string>): (r: seq<string>)
    requires forall i :: 0 <= i < |names| ==> names[i] in LowercaseList(vc)
    ensures |r| == |names|
    ensures forall i :: 0 <= i < |names| ==>
      r[i] in vc && Lower(r[i]) == names[i] && r[i] == vc[IndexOf(LowercaseList(vc), names[i])]
  {
    var vcl := LowercaseList(vc);
    seq(|names|, i requires 0 <= i < |names| => vc[IndexOf(vcl, names[i])])
  }

  /** Lines 110-111: the record's entries, stripped, lower-cased and de-duplicated. */
  function Entries(classes: string): set<string> {
    SetOf(LowercaseList(ToList(classes)))
  }

  /** There is always at least one entry (`"".split(',')` is `['']`), and every entry is
      already lower-case. */
  lemma EntriesLowered(classes: string)
    ensures Entries(classes) != {}
    ensures forall x :: x in Entries(classes) ==> Lower(x) == x
  {
    var names := LowercaseList(ToList(classes));
    assert names[0] in SetOf(names);
    LowercaseListLowered(ToList(classes));
  }

  /** Line 116: the entries that are not a lower-cased valid name. */
  function Invalid(classes: string, vc: seq<string>): (r: set<string>)
    ensures forall x :: x in r <==> x in Entries(classes) && x !in LowercaseList(vc)
  {
    Entries(classes) - SetOf(LowercaseList(vc))
  }

  /** Lines 128-130: when some entries are not valid names, they are removed; what is left
      is exactly the valid entries. */
  function Drop(unique: set<string>, valid: set<string>): (r: set<string>)
    ensures r == unique * valid
  {
    var invalid := unique - valid;
    assert forall x :: x in unique && x !in valid ==> x in invalid;
    if invalid != {} then unique - invalid else unique
  }

  /** Lines 107-130: the lower-cased entries left after de-duplication, the optional
      correction (after which line 126 recomputes the invalid entries) and the dropping of
      entries still invalid. */
  function Survivors(classes: string, vc: seq<string>, correct: bool): (r: Result<set<string>>)
    ensures r.Ok? ==> forall x :: x in r.value ==> x in LowercaseList(vc)
  {
    var vcl := LowercaseList(vc);
    if Invalid(classes, vc) != {} && correct then
      var corrected :- Corrected(Entries(classes), vcl);
      Ok(Drop(corrected, SetOf(vcl)))
    else
      Ok(Drop(Entries(classes), SetOf(vcl)))
  }

  /** Lines 107-135: the names `clean_classes` writes back, before joining. */
  function ClassNames(classes: string, vc: seq<string>, correct: bool): (r: Result<seq<string>>)
    ensures r.Ok? <==> Survivors(classes, vc, correct).Ok?
    ensures r.Ok? ==> SetOf(LowercaseList(r.value)) == Survivors(classes, vc, correct).value
  {
    var kept :- Survivors(classes, vc, correct);
    var names := Recase(SortedByPosition(kept, LowercaseList(vc)), vc);
    assert forall x :: x in LowercaseList(names) <==> x in SortedByPosition(kept, LowercaseList(vc)) by {
      assert LowercaseList(names) == SortedByPosition(kept, LowercaseList(vc));
    }
    Ok(names)
  }

  /** Lines 107-137: the new value of a record's "classes" string. */
  function CleanedClasses(classes: string, vc: seq<string>, correct: bool): (r: Result<string>)
    ensures r.Ok? <==> ClassNames(classes, vc, correct).Ok?
    ensures r.Ok? ==> r.value == ToStr(ClassNames(classes, vc, correct).value)
  {
    var names :- ClassNames(classes, vc, correct);
    Ok(ToStr(names))
  }

  /** Lines 107-137 step by step, with the correction loop run as written. */
  method CleanClassString(classes: string, vc: seq<string>, correct: bool) returns (r: Result<string>)
    ensures r == CleanedClasses(classes, vc, correct)
  {
    var vcl := LowercaseList(vc);
    var classList := LowercaseList(ToList(classes));
    var unique := SetOf(classList);
    var invalid := unique - SetOf(vcl);
    assert unique == Entries(classes) && invalid == Invalid(classes, vc);
    if invalid != {} && correct {
      var corrected := CorrectPartialNames(unique, vcl);
      if corrected.Err? {
        return Err(corrected.error);
      }
      unique := corrected.value;
      invalid := unique - SetOf(vcl);
    }
    assert unique * SetOf(vcl) == Drop(unique, SetOf(vcl));
    if invalid != {} {
      unique := unique - invalid;
    }
    var sorted := SortedByPosition(unique, vcl);
    var names := Recase(sorted, vc);
    return Ok(ToStr(names));
  }

  /** The form of every name `clean_classes` writes: the entry of `vc` at the first position
      (case-insensitively) of its lower-cased form, in strictly increasing order of that
      position. */
  predicate Canonical(names: seq<string>, vc: seq<string>) {
    && (forall i :: 0 <= i < |names| ==>
          Lower(names[i]) in LowercaseList(vc) && names[i] == vc[IndexOf(LowercaseList(vc), Lower(names[i]))])
    && (forall i, j :: 0 <= i < j < |names| ==>
          IndexOf(LowercaseList(vc), Lower(names[i])) < IndexOf(LowercaseList(vc), Lower(names[j])))
  }

  /** Lines 111 and 133-135: every written name is an exactly-cased valid name, taken from
      its first case-insensitive occurrence in `vc`; they follow the order of `vc`; and no
      two are equal, even ignoring case. */
  lemma ClassNamesCanonical(classes: string, vc: seq<string>, correct: bool)
    requires ClassNames(classes, vc, correct).Ok?
    ensures Canonical(ClassNames(classes, vc, correct).value, vc)
    ensures forall i :: 0 <= i < |ClassNames(classes, vc, correct).value| ==> ClassNames(classes, vc, correct).value[i] in vc
    ensures forall i, j :: 0 <= i < j < |ClassNames(classes, vc, correct).value| ==>
      Lower(ClassNames(classes, vc, correct).value[i]) != Lower(ClassNames(classes, vc, correct).value[j])
  {
    var kept := Survivors(classes, vc, correct).value;
    var sorted := SortedByPosition(kept, LowercaseList(vc));
    var names := Recase(sorted, vc);
    assert ClassNames(classes, vc, correct).value == names;
    assert forall i :: 0 <= i < |names| ==> Lower(names[i]) == sorted[i];
  }

  /** Lines 110-116 and 128-130 without correction: nothing raises, and the written names
      are, ignoring case, the record's entries that are valid names. */
  lemma ClassNamesWithoutCorrection(classes: string, vc: seq<string>)
    ensures ClassNames(classes, vc, false).Ok?
    ensures SetOf(LowercaseList(ClassNames(classes, vc, false).value)) == Entries(classes) * SetOf(LowercaseList(vc))
  {
  }

  /** After the correction, the valid entries are the valid entries from before together
      with the replacements. */
  lemma CorrectedValid(unique: set<string>, vcl: seq<string>)
    requires Corrected(unique, vcl).Ok?
    ensures Corrected(unique, vcl).value * SetOf(vcl) ==
      unique * SetOf(vcl) + Replacements(unique - SetOf(vcl), vcl)
  {
    var invalid := unique - SetOf(vcl);
    var fixed, repl := Fixed(invalid, vcl), Replacements(invalid, vcl);
    assert forall x :: x in fixed ==> x !in SetOf(vcl);
    assert forall x :: x in repl ==> x in SetOf(vcl);
  }

  /** Lines 118-130 with correction: the record raises KeyError exactly when some invalid
      entry starts with two or more valid names; otherwise the written names are, ignoring
      case, the valid entries together with the one valid name each repairable entry
      starts with. */
  lemma ClassNamesWithCorrection(classes: string, vc: seq<string>)
    ensures ClassNames(classes, vc, true).Err? <==>
      exists c :: c in Invalid(classes, vc) && PrefixMatches(c, LowercaseList(vc)) >= 2
    ensures ClassNames(classes, vc, true).Err? ==> ClassNames(classes, vc, true).error == KeyErrorOnRemove
    ensures ClassNames(classes, vc, true).Ok? ==>
      SetOf(LowercaseList(ClassNames(classes, vc, true).value)) ==
        Entries(classes) * SetOf(LowercaseList(vc)) + Replacements(Invalid(classes, vc), LowercaseList(vc))
  {
    var vcl := LowercaseList(vc);
    var unique := Entries(classes);
    var invalid := Invalid(classes, vc);
    assert invalid == unique - SetOf(vcl);
    if invalid == {} {
      assert Survivors(classes, vc, true) == Ok(Drop(unique, SetOf(vcl)));
      assert Replacements(invalid, vcl) == {};
      assert !exists c :: c in invalid && PrefixMatches(c, vcl) >= 2;
    } else if Corrected(unique, vcl).Ok? {
      assert Survivors(classes, vc, true) == Ok(Drop(Corrected(unique, vcl).value, SetOf(vcl)));
      CorrectedValid(unique, vcl);
      assert !exists c :: c in invalid && PrefixMatches(c, vcl) >= 2;
    } else {
      assert Survivors(classes, vc, true) == Err(KeyErrorOnRemove);
      var c :| c in unique - SetOf(vcl) && PrefixMatches(c, vcl) >= 2;
      assert c in invalid;
    }
  }

  /** Line 122 read for one invalid entry: with exactly one valid name it starts with, the
      entry is replaced by that name; with none, it is dropped. */
  lemma CorrectionOfEntry(classes: string, vc: seq<string>, c: string)
    requires ClassNames(classes, vc, true).Ok? && c in Invalid(classes, vc)
    ensures c !in SetOf(LowercaseList(ClassNames(classes, vc, true).value))
    ensures PrefixMatches(c, LowercaseList(vc)) == 1 ==>
      MatchedName(c, LowercaseList(vc)) in SetOf(LowercaseList(ClassNames(classes, vc, true).value))
  {
    ClassNamesWithCorrection(classes, vc);
  }

  /** With no valid classes every record's string becomes empty, with or without correction. */
  lemma NoValidClasses(classes: string, correct: bool)
    ensures CleanedClasses(classes, [], correct) == Ok("")
  {
    var vcl := LowercaseList([]);
    assert vcl == [];
    var unique := Entries(classes);
    assert Corrected(unique, vcl).Ok?;
    var kept := Survivors(classes, [], correct).value;
    assert kept == {} by {
      assert forall x :: x in kept ==> x in vcl;
    }
    assert SortedByPosition(kept, vcl) == [];
  }

  /** A string whose entries are all valid names survives as its set of entries. */
  lemma SurvivorsOfValid(classes: string, vc: seq<string>, correct: bool)
    requires forall x :: x in Entries(classes) ==> x in LowercaseList(vc)
    ensures Survivors(classes, vc, correct) == Ok(Entries(classes))
  {
    assert Invalid(classes, vc) == {};
  }

  /** Lines 93-97 and 133-137: when no valid name holds a comma or surrounding whitespace,
      cleaning a string that cleaning produced gives it back. (An empty result is skipped
      by `if classes:` the second time.) */
  lemma CleanedClassesIdempotent(classes: string, vc: seq<string>, correct: bool)
    requires forall k :: 0 <= k < |vc| ==> Plain(vc[k])
    requires CleanedClasses(classes, vc, correct).Ok?
    ensures CleanedClasses(classes, vc, correct).value != "" ==>
      CleanedClasses(CleanedClasses(classes, vc, correct).value, vc, correct) == CleanedClasses(classes, vc, correct)
  {
    var names := ClassNames(classes, vc, correct).value;
    var t := ToStr(names);
    if t != "" {
      assert |names| >= 1;
      ToListToStr(names);
      var kept := Survivors(classes, vc, correct).value;
      assert Entries(t) == kept;
      SurvivorsOfValid(t, vc, correct);
    }
  }
}
