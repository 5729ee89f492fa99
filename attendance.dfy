/** The attendee list of a session: a comma-joined string of user names that
    the attend handler (app.py:157-168) parses into a list, toggles the acting
    user in, and joins back. */
module Attendance {
  import opened Text
  import opened Records

  const Comma: char := ','

  /** A name that survives a join and a split unchanged: non-empty and
      without a comma. Registration does not enforce this. */
  predicate WellFormedName(u: string)
  {
    |u| > 0 && Comma !in u
  }

  predicate WellFormedList(xs: seq<string>)
  {
    forall i :: 0 <= i < |xs| ==> WellFormedName(xs[i])
  }

  /** Each name appears at most once. */
  predicate NoDup(xs: seq<string>)
  {
    forall i, j :: 0 <= i < j < |xs| ==> xs[i] != xs[j]
  }

  /** `session.attendees.split(',') if session.attendees else []`: NULL and
      the empty string both mean nobody. */
  function Parse(a: Option<string>): (r: seq<string>)
    ensures r == [] <==> TextOf(a) == ""
  {
    match a
    case None => []
    case Some(s) => if s == "" then [] else Split(s, Comma)
  }

  /** The column's text, NULL read as the empty string. */
  function TextOf(a: Option<string>): string
  {
    match a
    case None => ""
    case Some(s) => s
  }

  /** Position of the first occurrence of `u`. */
  function FirstIndex(xs: seq<string>, u: string): (k: nat)
    requires u in xs
    ensures k < |xs| && xs[k] == u && u !in xs[..k]
  {
    if xs[0] == u then 0
    else
      var k := FirstIndex(xs[1..], u);
      assert xs[..k + 1] == [xs[0]] + xs[1..][..k];
      k + 1
  }

  /** `list.remove(u)`: drops the first occurrence of `u`; a list without `u`
      is returned unchanged here (Python would raise, but the handler only
      calls it when `u` is present). */
  function RemoveFirst(xs: seq<string>, u: string): (r: seq<string>)
    ensures |r| == if u in xs then |xs| - 1 else |xs|
  {
    if |xs| == 0 then []
    else if xs[0] == u then xs[1..]
    else [xs[0]] + RemoveFirst(xs[1..], u)
  }

  /** The list operation of the handler: append the name if it is absent,
      otherwise remove its first occurrence. */
  function Toggle(xs: seq<string>, u: string): (r: seq<string>)
    ensures |r| == if u in xs then |xs| - 1 else |xs| + 1
  {
    if u !in xs then xs + [u] else RemoveFirst(xs, u)
  }

  /** The new value of the attendees column after user `u` attends; with
      nobody attending it is exactly the user's name. */
  function ToggleText(a: Option<string>, u: string): (r: string)
    ensures Parse(a) == [] ==> r == u
  {
    Join(Toggle(Parse(a), u), Comma)
  }

  /** The names other than `u`, in their order. */
  function Others(xs: seq<string>, u: string): (r: seq<string>)
    ensures u !in r
  {
    if |xs| == 0 then []
    else if xs[0] == u then Others(xs[1..], u)
    else [xs[0]] + Others(xs[1..], u)
  }

  // ---------------------------------------------------------------------
  // Parsing and joining

  /** A list of well-formed names is read back from its joined text. */
  lemma ParseJoin(xs: seq<string>)
    requires WellFormedList(xs)
    ensures Parse(Some(Join(xs, Comma))) == xs
  {
    if |xs| > 0 {
      assert |xs[0]| > 0;
      JoinNonEmpty(xs);
      SplitJoin(xs, Comma);
    }
  }

  lemma {:induction false} JoinNonEmpty(xs: seq<string>)
    requires |xs| > 0 && |xs[0]| > 0
    ensures Join(xs, Comma) != ""
  {
    if |xs| > 1 {
      assert Join(xs, Comma) == xs[0] + [Comma] + Join(xs[1..], Comma);
    }
  }

  /** Joining the parsed list gives back the stored text (NULL becomes ""). */
  lemma JoinParse(a: Option<string>)
    ensures Join(Parse(a), Comma) == TextOf(a)
  {
    if a.Some? && a.value != "" {
      JoinSplit(a.value, Comma);
    }
  }

  /** A new session's attendee column holds its creator's name; when the name
      is well formed that parses as the one-element list of the creator. */
  lemma CreatorSeed(creator: string)
    requires WellFormedName(creator)
    ensures Parse(Some(creator)) == [creator]
  {
  }

  // ---------------------------------------------------------------------
  // The toggle on lists

  /** `list.remove(u)` cuts out exactly the first occurrence of `u`. */
  lemma {:induction false} RemoveFirstCutsFirst(xs: seq<string>, u: string)
    requires u in xs
    ensures RemoveFirst(xs, u) == Cut(xs, FirstIndex(xs, u))
    decreases |xs|
  {
    if xs[0] != u {
      assert u in xs[1..];
      RemoveFirstCutsFirst(xs[1..], u);
      var k := FirstIndex(xs[1..], u);
      assert FirstIndex(xs, u) == k + 1;
      assert xs[..k + 1] == [xs[0]] + xs[1..][..k];
      assert xs[k + 2..] == xs[1..][k + 1..];
    }
  }

  lemma RemoveFirstMembers(xs: seq<string>, u: string, v: string)
    requires u in xs
    ensures v != u ==> (v in RemoveFirst(xs, u) <==> v in xs)
    ensures NoDup(xs) ==> u !in RemoveFirst(xs, u)
  {
    var k := FirstIndex(xs, u);
    RemoveFirstCutsFirst(xs, u);
    assert Cut(xs, k) == xs[..k] + xs[k + 1..];
    assert xs == xs[..k] + [xs[k]] + xs[k + 1..];
    if NoDup(xs) {
      assert forall j :: k < j < |xs| ==> xs[j] != xs[k];
      assert u !in xs[k + 1..];
    }
  }

  lemma RemoveFirstNoDup(xs: seq<string>, u: string)
    requires u in xs && NoDup(xs)
    ensures NoDup(RemoveFirst(xs, u))
  {
    var k := FirstIndex(xs, u);
    var r := Cut(xs, k);
    RemoveFirstCutsFirst(xs, u);
    forall i, j | 0 <= i < j < |r| ensures r[i] != r[j] {
      if j < k {
        assert r[i] == xs[i] && r[j] == xs[j];
      } else if i < k {
        assert r[i] == xs[i] && r[j] == xs[j + 1];
      } else {
        assert r[i] == xs[i + 1] && r[j] == xs[j + 1];
      }
    }
  }

  /** With unique names, toggling flips the presence of `u`. */
  lemma ToggleFlipsPresence(xs: seq<string>, u: string)
    requires NoDup(xs)
    ensures u in Toggle(xs, u) <==> u !in xs
  {
    if u in xs {
      RemoveFirstMembers(xs, u, u);
    }
  }

  /** Toggling `u` leaves every other name as present or absent as before. */
  lemma ToggleOthers(xs: seq<string>, u: string, v: string)
    requires v != u
    ensures v in Toggle(xs, u) <==> v in xs
  {
    if u in xs {
      RemoveFirstMembers(xs, u, v);
    }
  }

  lemma ToggleNoDup(xs: seq<string>, u: string)
    requires NoDup(xs)
    ensures NoDup(Toggle(xs, u))
  {
    if u in xs {
      RemoveFirstNoDup(xs, u);
    } else {
      var r := xs + [u];
      forall i, j | 0 <= i < j < |r| ensures r[i] != r[j] {
        if j == |xs| {
          assert r[i] in xs;
        }
      }
    }
  }

  lemma ToggleWellFormed(xs: seq<string>, u: string)
    requires WellFormedList(xs) && WellFormedName(u)
    ensures WellFormedList(Toggle(xs, u))
  {
    if u in xs {
      var r := Toggle(xs, u);
      var k := FirstIndex(xs, u);
      RemoveFirstCutsFirst(xs, u);
      forall i | 0 <= i < |r| ensures WellFormedName(r[i]) {
        if i < k {
          assert r[i] == xs[i];
        } else {
          assert r[i] == xs[i + 1];
        }
      }
    }
  }

  /** Toggling flips the presence of `u` and leaves every other name as
      present or absent as before; names stay well formed and unique. */
  lemma ToggleFlips(xs: seq<string>, u: string)
    requires NoDup(xs)
    ensures u in Toggle(xs, u) <==> u !in xs
    ensures forall v :: v != u ==> (v in Toggle(xs, u) <==> v in xs)
    ensures NoDup(Toggle(xs, u))
    ensures WellFormedList(xs) && WellFormedName(u) ==> WellFormedList(Toggle(xs, u))
  {
    ToggleFlipsPresence(xs, u);
    forall v | v != u ensures v in Toggle(xs, u) <==> v in xs {
      ToggleOthers(xs, u, v);
    }
    ToggleNoDup(xs, u);
    if WellFormedList(xs) && WellFormedName(u) {
      ToggleWellFormed(xs, u);
    }
  }

  lemma {:induction false} OthersAppend(xs: seq<string>, ys: seq<string>, u: string)
    ensures Others(xs + ys, u) == Others(xs, u) + Others(ys, u)
    decreases |xs|
  {
    if |xs| == 0 {
      assert xs + ys == ys;
    } else {
      assert (xs + ys)[0] == xs[0] && (xs + ys)[1..] == xs[1..] + ys;
      OthersAppend(xs[1..], ys, u);
    }
  }

  /** Every name other than the acting user's keeps its place relative to the
      others: removing `u` from the old and the new list gives the same list. */
  lemma ToggleKeepsOrder(xs: seq<string>, u: string)
    ensures Others(Toggle(xs, u), u) == Others(xs, u)
  {
    if u !in xs {
      OthersAppend(xs, [u], u);
    } else {
      var k := FirstIndex(xs, u);
      RemoveFirstCutsFirst(xs, u);
      assert Cut(xs, k) == xs[..k] + xs[k + 1..];
      assert xs == xs[..k] + ([xs[k]] + xs[k + 1..]);
      OthersAppend(xs[..k], [xs[k]] + xs[k + 1..], u);
      OthersAppend(xs[..k], xs[k + 1..], u);
    }
  }

  // ---------------------------------------------------------------------
  // The toggle on the stored text

  /** Attending a session with no attendees (NULL or "") stores exactly the
      user's name; a second attend by a well-formed name stores "". */
  lemma AttendFromEmpty(u: string)
    requires WellFormedName(u)
    ensures ToggleText(None, u) == u && ToggleText(Some(""), u) == u
    ensures ToggleText(Some(ToggleText(None, u)), u) == ""
  {
    assert Parse(Some(u)) == [u];
  }

  /** Parsing the stored text after a toggle gives the toggled list, when
      every name involved is well formed; names may repeat. */
  lemma ParseToggleText(a: Option<string>, u: string)
    requires WellFormedName(u) && WellFormedList(Parse(a))
    ensures Parse(Some(ToggleText(a, u))) == Toggle(Parse(a), u)
    ensures WellFormedList(Toggle(Parse(a), u))
    ensures NoDup(Parse(a)) ==> NoDup(Toggle(Parse(a), u))
  {
    ToggleWellFormed(Parse(a), u);
    ParseJoin(Toggle(Parse(a), u));
    if NoDup(Parse(a)) {
      ToggleNoDup(Parse(a), u);
    }
  }

  /** Attending twice restores the stored text when the user was not yet
      attending and all names are well formed; the list may repeat names. */
  lemma AttendTwiceRestores(a: Option<string>, u: string)
    requires WellFormedName(u) && WellFormedList(Parse(a))
    requires u !in Parse(a)
    ensures ToggleText(Some(ToggleText(a, u)), u) == TextOf(a)
  {
    var xs := Parse(a);
    assert Toggle(xs, u) == xs + [u];
    assert WellFormedList(xs + [u]);
    ParseJoin(xs + [u]);
    var once := Some(ToggleText(a, u));
    assert Parse(once) == xs + [u];
    assert FirstIndex(xs + [u], u) == |xs|;
    RemoveFirstCutsFirst(xs + [u], u);
    assert Cut(xs + [u], |xs|) == xs;
    assert Toggle(Parse(once), u) == xs;
    JoinParse(a);
  }

  /** When the user was attending, two toggles leave the user attending but
      moved to the end of the list. */
  lemma AttendTwiceMovesToEnd(a: Option<string>, u: string)
    requires WellFormedName(u) && WellFormedList(Parse(a)) && NoDup(Parse(a))
    requires u in Parse(a)
    ensures Parse(Some(ToggleText(Some(ToggleText(a, u)), u))) == RemoveFirst(Parse(a), u) + [u]
  {
    var xs := Parse(a);
    ParseToggleText(a, u);
    RemoveFirstMembers(xs, u, u);
    ParseToggleText(Some(ToggleText(a, u)), u);
  }

  /** With unique well-formed names, attending twice restores the stored
      text exactly when the user was absent or listed last. */
  lemma AttendTwiceRestoresIff(a: Option<string>, u: string)
    requires WellFormedName(u) && WellFormedList(Parse(a)) && NoDup(Parse(a))
    ensures ToggleText(Some(ToggleText(a, u)), u) == TextOf(a)
      <==> u !in Parse(a) || Parse(a)[|Parse(a)| - 1] == u
  {
    var xs := Parse(a);
    if u !in xs {
      AttendTwiceRestores(a, u);
    } else if xs[|xs| - 1] == u {
      AttendTwiceRestoresLast(a, u);
    } else {
      AttendTwiceMovesFromMiddle(a, u);
    }
  }

  lemma AttendTwiceRestoresLast(a: Option<string>, u: string)
    requires WellFormedName(u) && WellFormedList(Parse(a)) && NoDup(Parse(a))
    requires u in Parse(a) && Parse(a)[|Parse(a)| - 1] == u
    ensures ToggleText(Some(ToggleText(a, u)), u) == TextOf(a)
  {
    var twice := ToggleText(Some(ToggleText(a, u)), u);
    assert Parse(Some(twice)) == Parse(a) by {
      AttendTwiceMovesToEnd(a, u);
      RemoveLastThenAppend(Parse(a), u);
    }
    SameListSameText(Some(twice), a);
  }

  /** In a duplicate-free list ending in `u`, removing `u` and appending it
      again gives the list back. */
  lemma RemoveLastThenAppend(xs: seq<string>, u: string)
    requires NoDup(xs) && |xs| > 0 && xs[|xs| - 1] == u
    ensures RemoveFirst(xs, u) + [u] == xs
  {
    var k := FirstIndex(xs, u);
    RemoveFirstCutsFirst(xs, u);
    assert k == |xs| - 1;
  }

  /** Two columns that parse alike hold the same text (NULL read as ""). */
  lemma SameListSameText(a: Option<string>, b: Option<string>)
    requires Parse(a) == Parse(b)
    ensures TextOf(a) == TextOf(b)
  {
    JoinParse(a);
    JoinParse(b);
  }

  lemma AttendTwiceMovesFromMiddle(a: Option<string>, u: string)
    requires WellFormedName(u) && WellFormedList(Parse(a)) && NoDup(Parse(a))
    requires u in Parse(a) && Parse(a)[|Parse(a)| - 1] != u
    ensures ToggleText(Some(ToggleText(a, u)), u) != TextOf(a)
  {
    var xs := Parse(a);
    var ys := Parse(Some(ToggleText(Some(ToggleText(a, u)), u)));
    AttendTwiceMovesToEnd(a, u);
    assert ys[|ys| - 1] == u;
    assert Parse(Some(TextOf(a))) == xs;
  }

  /** The list after `n` toggles by the same user. */
  function ToggleTimes(xs: seq<string>, u: string, n: nat): seq<string>
  {
    if n == 0 then xs else Toggle(ToggleTimes(xs, u, n - 1), u)
  }

  /** After `n` toggles by one well-formed user the list is still well formed
      and unique, and holds that user exactly when `n` is odd and they were
      absent at first, or `n` is even and they were present. */
  lemma {:induction false} ToggleParity(xs: seq<string>, u: string, n: nat)
    requires WellFormedName(u) && WellFormedList(xs) && NoDup(xs)
    ensures WellFormedList(ToggleTimes(xs, u, n)) && NoDup(ToggleTimes(xs, u, n))
    ensures u in ToggleTimes(xs, u, n) <==> (u in xs <==> n % 2 == 0)
  {
    if n == 0 {
      assert ToggleTimes(xs, u, n) == xs;
    } else {
      ToggleParity(xs, u, n - 1);
      var prev := ToggleTimes(xs, u, n - 1);
      ToggleFlips(prev, u);
      assert ToggleTimes(xs, u, n) == Toggle(prev, u);
      assert ((n - 1) % 2 == 0) == (n % 2 != 0);
    }
  }

  /** The list after each name in `actors` toggles in turn. */
  function ToggleAll(xs: seq<string>, actors: seq<string>): seq<string>
    decreases |actors|
  {
    if |actors| == 0 then xs else ToggleAll(Toggle(xs, actors[0]), actors[1..])
  }

  /** The attendee column after each name in `actors` attends in turn. */
  function AttendAll(a: Option<string>, actors: seq<string>): Option<string>
    decreases |actors|
  {
    if |actors| == 0 then a else AttendAll(Some(ToggleText(a, actors[0])), actors[1..])
  }

  /** Whether `u` occurs an odd number of times in `actors`. */
  function OddTimes(actors: seq<string>, u: string): bool
    decreases |actors|
  {
    if |actors| == 0 then false else (actors[0] == u) != OddTimes(actors[1..], u)
  }

  /** In a duplicate-free list, any sequence of toggles keeps the list
      duplicate-free, and a name is listed at the end exactly when its
      initial presence differs from the parity of its own toggles. */
  lemma {:induction false} ToggleAllParity(xs: seq<string>, actors: seq<string>, u: string)
    requires NoDup(xs)
    ensures NoDup(ToggleAll(xs, actors))
    ensures u in ToggleAll(xs, actors) <==> ((u in xs) != OddTimes(actors, u))
    decreases |actors|
  {
    if |actors| > 0 {
      ToggleFlips(xs, actors[0]);
      ToggleAllParity(Toggle(xs, actors[0]), actors[1..], u);
    }
  }

  /** Toggles by well-formed names keep a list of well-formed names. */
  lemma {:induction false} ToggleAllWellFormed(xs: seq<string>, actors: seq<string>)
    requires WellFormedList(xs) && WellFormedList(actors)
    ensures WellFormedList(ToggleAll(xs, actors))
    decreases |actors|
  {
    if |actors| > 0 {
      ToggleWellFormed(xs, actors[0]);
      ToggleAllWellFormed(Toggle(xs, actors[0]), actors[1..]);
    }
  }

  /** The stored column after a sequence of attends by well-formed names
      parses as the list after the same sequence of toggles, even when
      names repeat. */
  lemma {:induction false} AttendAllParse(a: Option<string>, actors: seq<string>)
    requires WellFormedList(Parse(a)) && WellFormedList(actors)
    ensures Parse(AttendAll(a, actors)) == ToggleAll(Parse(a), actors)
    decreases |actors|
  {
    if |actors| > 0 {
      ParseToggleText(a, actors[0]);
      AttendAllParse(Some(ToggleText(a, actors[0])), actors[1..]);
    }
  }

  /** Any sequence of attends on the stored column, by well-formed users
      starting from a sound list: the list stays sound, and each user is
      listed exactly when their initial presence differs from the parity of
      their own attends, whatever others do in between. */
  lemma AttendAllParity(a: Option<string>, actors: seq<string>, u: string)
    requires WellFormedList(Parse(a)) && NoDup(Parse(a)) && WellFormedList(actors)
    ensures WellFormedList(Parse(AttendAll(a, actors))) && NoDup(Parse(AttendAll(a, actors)))
    ensures u in Parse(AttendAll(a, actors)) <==> ((u in Parse(a)) != OddTimes(actors, u))
  {
    AttendAllParse(a, actors);
    ToggleAllParity(Parse(a), actors, u);
    ToggleAllWellFormed(Parse(a), actors);
  }

  /** One attend on the stored text, for well-formed names: the list stays
      well formed and unique, the acting user's presence flips, and every
      other name stays as present or absent as before. */
  lemma AttendStep(a: Option<string>, u: string)
    requires WellFormedName(u) && WellFormedList(Parse(a)) && NoDup(Parse(a))
    ensures WellFormedList(Parse(Some(ToggleText(a, u))))
    ensures NoDup(Parse(Some(ToggleText(a, u))))
    ensures u in Parse(Some(ToggleText(a, u))) <==> u !in Parse(a)
    ensures forall v :: v != u ==> (v in Parse(Some(ToggleText(a, u))) <==> v in Parse(a))
  {
    ParseToggleText(a, u);
    ToggleFlips(Parse(a), u);
  }

  lemma ParsePair(x: string, y: string)
    requires WellFormedName(x) && WellFormedName(y)
    ensures Parse(Some(x + [Comma] + y)) == [x, y]
  {
    SplitAfterHead(x, Comma, y);
  }

  lemma JoinTriple(x: string, y: string, z: string)
    ensures Join([x, y, z], Comma) == x + [Comma] + y + [Comma] + z
  {
    assert [x, y, z][1..] == [y, z];
    assert Join([y, z], Comma) == y + [Comma] + z;
  }

  lemma ParseQuad(x: string, y: string)
    requires WellFormedName(x) && WellFormedName(y)
    ensures Parse(Some(Join([x, y, x + [Comma] + y], Comma))) == [x, y, x, y]
  {
    var n := x + [Comma] + y;
    assert Join([y, n], Comma) == y + [Comma] + n by {
      assert [y, n][1..] == [n];
    }
    assert Join([x, y, n], Comma) == x + [Comma] + Join([y, n], Comma) by {
      assert [x, y, n][1..] == [y, n];
    }
    SplitAfterHead(x, Comma, y + [Comma] + n);
    SplitAfterHead(y, Comma, n);
    SplitAfterHead(x, Comma, y);
  }

  /** A user name with a comma breaks the list. A session created by
      `x,y` (for well-formed `x` and `y`) is read as the two attendees `x` and
      `y`; its creator is then not found in the list, so attending as `x,y`
      appends instead of removing, and `x` and `y` end up listed twice. */
  lemma CommaNameBreaksToggle(x: string, y: string)
    requires WellFormedName(x) && WellFormedName(y)
    ensures Parse(Some(x + [Comma] + y)) == [x, y]
    ensures ToggleText(Some(x + [Comma] + y), x + [Comma] + y)
         == (x + [Comma] + y) + [Comma] + (x + [Comma] + y)
    ensures Parse(Some(ToggleText(Some(x + [Comma] + y), x + [Comma] + y))) == [x, y, x, y]
    ensures !NoDup(Parse(Some(ToggleText(Some(x + [Comma] + y), x + [Comma] + y))))
  {
    var n := x + [Comma] + y;
    ParsePair(x, y);
    assert n[|x|] == Comma;
    assert n != x && n != y;
    assert Toggle([x, y], n) == [x, y, n];
    JoinTriple(x, y, n);
    ParseQuad(x, y);
    var b := [x, y, x, y];
    assert b[0] == b[2];
  }
}
