/** Option and Result values, and the few string helpers the models share. */
module Common {

  datatype Option<+T> = None | Some(value: T)

  datatype Result<+T, +E> = Ok(value: T) | Err(error: E)

  /** String.prototype.startsWith */
  predicate StartsWith(s: string, prefix: string) {
    prefix <= s
  }

  /** String.prototype.endsWith */
  predicate EndsWith(s: string, suffix: string) {
    |suffix| <= |s| && s[|s| - |suffix|..] == suffix
  }

  /** String.prototype.includes */
  predicate Includes(s: string, part: string) {
    part <= s || (s != [] && Includes(s[1..], part))
  }

  lemma {:induction false} IncludesOneCharacter(s: string, c: char)
    ensures Includes(s, [c]) <==> c in s
  {
    if s != [] {
      IncludesOneCharacter(s[1..], c);
      assert [c] <= s <==> s[0] == c;
      assert c in s <==> c == s[0] || c in s[1..];
    }
  }

  /** The part stands in the text at `i`. */
  predicate OccursAt(s: string, part: string, i: nat) {
    i + |part| <= |s| && s[i..i + |part|] == part
  }

  lemma OccursLater(s: string, part: string, i: nat)
    requires s != []
    ensures OccursAt(s[1..], part, i) <==> OccursAt(s, part, i + 1)
  {
    if i + 1 + |part| <= |s| {
      assert s[1..][i..i + |part|] == s[i + 1..i + 1 + |part|];
    }
  }

  lemma OneCharacterOccurs(s: string, c: char, i: nat)
    ensures OccursAt(s, [c], i) <==> i < |s| && s[i] == c
  {
  }

  /** A text includes a part iff the part stands in it somewhere. */
  lemma {:induction false} IncludesIff(s: string, part: string)
    ensures Includes(s, part) <==> exists i: nat :: OccursAt(s, part, i)
  {
    if part <= s {
      assert OccursAt(s, part, 0);
    } else if s != [] {
      IncludesIff(s[1..], part);
      if Includes(s[1..], part) {
        var i: nat :| OccursAt(s[1..], part, i);
        OccursLater(s, part, i);
      }
      if i: nat :| OccursAt(s, part, i) {
        assert i > 0;
        OccursLater(s, part, i - 1);
      }
    }
  }

  predicate NoDuplicates<T(==)>(s: seq<T>) {
    forall i, j | 0 <= i < j < |s| :: s[i] != s[j]
  }

  /** Array.prototype.filter */
  function Filter<T>(s: seq<T>, keep: T -> bool): seq<T> {
    if s == [] then []
    else if keep(s[0]) then [s[0]] + Filter(s[1..], keep)
    else Filter(s[1..], keep)
  }

  lemma {:induction false} FilterTakesExactly<T(!new)>(s: seq<T>, keep: T -> bool)
    ensures forall x :: x in Filter(s, keep) <==> x in s && keep(x)
    ensures |Filter(s, keep)| <= |s|
    ensures |Filter(s, keep)| == |s| <==> forall x | x in s :: keep(x)
  {
    if s != [] {
      FilterTakesExactly(s[1..], keep);
      assert forall x :: x in s <==> x == s[0] || x in s[1..];
    }
  }

  lemma FilterOfOne<T>(a: T, keep: T -> bool)
    ensures Filter([a], keep) == if keep(a) then [a] else []
  {
    assert [a][1..] == [];
  }

  lemma FilterOfPair<T>(x: T, a: T, keep: T -> bool)
    ensures Filter([x, a], keep) == (if keep(x) then [x] else []) + (if keep(a) then [a] else [])
  {
    assert [x, a][1..] == [a];
    FilterOfOne(a, keep);
  }

  // ---------- Splitting ----------

  function IndexOf(s: string, part: string): (i: Option<nat>)
    ensures i.Some? ==> i.value + |part| <= |s|
  {
    if StartsWith(s, part) then Some(0)
    else if s == "" then None
    else match IndexOf(s[1..], part) case Some(i) => Some(i + 1) case None => None
  }

  /** The index is that of the first place, if there is one. */
  lemma {:induction false} IndexOfIsFirst(s: string, part: string)
    ensures match IndexOf(s, part)
            case Some(i) => OccursAt(s, part, i) && forall j: nat :: OccursAt(s, part, j) ==> i <= j
            case None => forall j: nat :: !OccursAt(s, part, j)
  {
    if StartsWith(s, part) {
      assert s[0..|part|] == part;
    } else if s != "" {
      IndexOfIsFirst(s[1..], part);
      forall j: nat | OccursAt(s, part, j) ensures j > 0 && OccursAt(s[1..], part, j - 1) {
        assert j > 0;
        OccursLater(s, part, j - 1);
      }
      if IndexOf(s[1..], part).Some? {
        OccursLater(s, part, IndexOf(s[1..], part).value);
      }
    }
  }

  /** String.prototype.split */
  function Split(s: string, separator: string): (parts: seq<string>)
    requires separator != ""
    ensures parts != []
    decreases |s|
  {
    match IndexOf(s, separator)
    case None => [s]
    case Some(i) => [s[..i]] + Split(s[i + |separator|..], separator)
  }

  lemma {:induction false} IndexAfterOtherText(a: string, separator: string, rest: string)
    requires separator != "" && separator[0] !in a
    ensures IndexOf(a + separator + rest, separator) == Some(|a|)
    ensures IndexOf(a, separator) == None
  {
    if a == "" {
      assert a + separator + rest == separator + rest;
    } else {
      assert (a + separator + rest)[1..] == a[1..] + separator + rest;
      assert a[0] in a && forall c :: c in a[1..] ==> c in a;
      IndexAfterOtherText(a[1..], separator, rest);
    }
  }

  lemma SplitFirst(a: string, separator: string, rest: string)
    requires separator != "" && separator[0] !in a
    ensures Split(a + separator + rest, separator) == [a] + Split(rest, separator)
    ensures Split(a, separator) == [a]
  {
    IndexAfterOtherText(a, separator, rest);
    assert (a + separator + rest)[..|a|] == a;
    assert (a + separator + rest)[|a| + |separator|..] == rest;
  }
}
