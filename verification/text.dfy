/** Character-level helpers standing in for `str::find` and `str::split`. */
module Text {
  import opened Wrappers

  /** No character of `s` belongs to `seps`. */
  predicate NoneOf(s: string, seps: set<char>) {
    forall j :: 0 <= j < |s| ==> s[j] !in seps
  }

  /** How many characters of `s` belong to `seps`. */
  function Occurrences(s: string, seps: set<char>): nat {
    if |s| == 0 then 0
    else (if s[0] in seps then 1 else 0) + Occurrences(s[1..], seps)
  }

  /** Position of the first character of `s` in `seps`, counted in characters where
      `str::find` counts bytes. The two differ when a multi-byte character comes
      first, but slicing at either position cuts the text at the same place. */
  function Find(s: string, seps: set<char>): (r: Option<nat>)
    ensures r.Some? ==> r.value < |s| && s[r.value] in seps && NoneOf(s[..r.value], seps)
    ensures r.None? <==> NoneOf(s, seps)
  {
    if |s| == 0 then None
    else if s[0] in seps then Some(0)
    else
      match Find(s[1..], seps)
      case None => None
      case Some(i) => Some(i + 1)
  }

  /** The pieces `str::split` yields for a pattern matching any character of `seps`:
      the text between consecutive separators, empty pieces included, and always
      at least one piece (the split of "" is [""]). */
  function Split(s: string, seps: set<char>): (r: seq<string>)
    ensures |r| >= 1
    ensures forall k :: 0 <= k < |r| ==> NoneOf(r[k], seps)
    decreases |s|
  {
    match Find(s, seps)
    case None => [s]
    case Some(i) => [s[..i]] + Split(s[i + 1..], seps)
  }

  /** The pieces joined with `sep` between neighbours; the inverse of `Split`. */
  function Join(pieces: seq<string>, sep: char): string
    decreases |pieces|
  {
    if |pieces| == 0 then ""
    else if |pieces| == 1 then pieces[0]
    else pieces[0] + [sep] + Join(pieces[1..], sep)
  }

  lemma {:induction false} OccurrencesAppend(a: string, b: string, seps: set<char>)
    ensures Occurrences(a + b, seps) == Occurrences(a, seps) + Occurrences(b, seps)
    decreases |a|
  {
    if |a| == 0 {
      assert a + b == b;
    } else {
      assert (a + b)[1..] == a[1..] + b;
      OccurrencesAppend(a[1..], b, seps);
    }
  }

  lemma {:induction false} OccurrencesNoneOf(s: string, seps: set<char>)
    requires NoneOf(s, seps)
    ensures Occurrences(s, seps) == 0
    decreases |s|
  {
    if |s| > 0 {
      OccurrencesNoneOf(s[1..], seps);
    }
  }

  /** Splitting at a separator splits the text into the pieces of either side. */
  lemma {:induction false} SplitAppend(a: string, c: char, b: string, seps: set<char>)
    requires c in seps
    ensures Split(a + [c] + b, seps) == Split(a, seps) + Split(b, seps)
    decreases |a|
  {
    var s := a + [c] + b;
    match Find(a, seps)
    case None =>
      assert s[|a|] == c;
      assert s[..|a|] == a;
      FindFirst(s, |a|, seps);
      assert s[|a| + 1..] == b;
    case Some(i) =>
      assert s[i] == a[i];
      assert s[..i] == a[..i];
      FindFirst(s, i, seps);
      assert s[i + 1..] == a[i + 1..] + [c] + b;
      SplitAppend(a[i + 1..], c, b, seps);
  }

  /** `Find` reports the first separator. */
  lemma {:induction false} FindFirst(s: string, i: nat, seps: set<char>)
    requires i < |s| && s[i] in seps && NoneOf(s[..i], seps)
    ensures Find(s, seps) == Some(i)
    decreases i
  {
    if i > 0 {
      assert s[0] == s[..i][0];
      assert s[1..][..i - 1] == s[..i][1..];
      FindFirst(s[1..], i - 1, seps);
    }
  }

  lemma NoneOfAppend(a: string, b: string, seps: set<char>)
    ensures NoneOf(a + b, seps) <==> NoneOf(a, seps) && NoneOf(b, seps)
  {
    forall j | 0 <= j < |a| ensures a[j] == (a + b)[j] { }
    forall j | 0 <= j < |b| ensures b[j] == (a + b)[|a| + j] { }
    if NoneOf(a, seps) && NoneOf(b, seps) {
      forall j | 0 <= j < |a + b| ensures (a + b)[j] !in seps {
        if j < |a| { assert (a + b)[j] == a[j]; } else { assert (a + b)[j] == b[j - |a|]; }
      }
    }
  }

  /** A separator-free text is a single piece. */
  lemma SplitNoneOf(s: string, seps: set<char>)
    requires NoneOf(s, seps)
    ensures Split(s, seps) == [s]
  {
  }

  /** `Split` yields one piece more than there are separators. */
  lemma {:induction false} SplitCount(s: string, seps: set<char>)
    ensures |Split(s, seps)| == Occurrences(s, seps) + 1
    decreases |s|
  {
    match Find(s, seps)
    case None =>
      OccurrencesNoneOf(s, seps);
    case Some(i) =>
      assert s == s[..i] + [s[i]] + s[i + 1..];
      OccurrencesAppend(s[..i] + [s[i]], s[i + 1..], seps);
      OccurrencesAppend(s[..i], [s[i]], seps);
      OccurrencesNoneOf(s[..i], seps);
      SplitCount(s[i + 1..], seps);
  }

  /** Splitting joined separator-free pieces gives the pieces back. */
  lemma {:induction false} SplitJoin(pieces: seq<string>, sep: char, seps: set<char>)
    requires |pieces| >= 1 && sep in seps
    requires forall k :: 0 <= k < |pieces| ==> NoneOf(pieces[k], seps)
    ensures Split(Join(pieces, sep), seps) == pieces
    decreases |pieces|
  {
    if |pieces| == 1 {
      SplitNoneOf(pieces[0], seps);
    } else {
      SplitAppend(pieces[0], sep, Join(pieces[1..], sep), seps);
      SplitNoneOf(pieces[0], seps);
      SplitJoin(pieces[1..], sep, seps);
    }
  }

  /** Joining the pieces of a single-separator split restores the text. */
  lemma {:induction false} JoinSplit(s: string, sep: char)
    ensures Join(Split(s, {sep}), sep) == s
    decreases |s|
  {
    match Find(s, {sep})
    case None =>
    case Some(i) =>
      var rest := Split(s[i + 1..], {sep});
      assert Split(s, {sep}) == [s[..i]] + rest;
      assert ([s[..i]] + rest)[1..] == rest;
      JoinSplit(s[i + 1..], sep);
      assert Join(Split(s, {sep}), sep) == s[..i] + [sep] + s[i + 1..];
      assert s == s[..i] + [sep] + s[i + 1..];
  }

  /** Joining separator-free pieces with a separator outside the set keeps the text free of the set. */
  lemma {:induction false} JoinNoneOf(pieces: seq<string>, sep: char, seps: set<char>)
    requires sep !in seps
    requires forall k :: 0 <= k < |pieces| ==> NoneOf(pieces[k], seps)
    ensures NoneOf(Join(pieces, sep), seps)
    decreases |pieces|
  {
    if |pieces| > 1 {
      JoinNoneOf(pieces[1..], sep, seps);
      NoneOfAppend(pieces[0] + [sep], Join(pieces[1..], sep), seps);
      NoneOfAppend(pieces[0], [sep], seps);
    }
  }

  /** Joining three pieces puts the separator between each neighbouring pair. */
  lemma JoinThree(x: string, y: string, z: string, sep: char)
    ensures Join([x, y, z], sep) == x + [sep] + y + [sep] + z
  {
    assert [x, y, z][1..] == [y, z];
    assert [y, z][1..] == [z];
    assert Join([z], sep) == z;
    assert Join([y, z], sep) == y + [sep] + z;
    assert Join([x, y, z], sep) == x + [sep] + (y + [sep] + z);
  }

  /** Splitting two separator-free texts joined by one separator gives the two texts back. */
  lemma SplitTwo(first: string, sep: char, second: string, seps: set<char>)
    requires sep in seps && NoneOf(first, seps) && NoneOf(second, seps)
    ensures Split(first + [sep] + second, seps) == [first, second]
  {
    SplitAppend(first, sep, second, seps);
    SplitNoneOf(first, seps);
    SplitNoneOf(second, seps);
  }
}
