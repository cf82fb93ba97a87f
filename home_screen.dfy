/**
 The admin list of the home screen: the admin records held in memory, the
 search text typed by the user, and the visible list derived from the two by a
 case-insensitive substring filter over name, e-mail and restaurant name.
 */
module HomeScreen {
  import opened JsString

  /** One admin record as the screen holds it. */
  datatype Admin = Admin(
    name: string,
    role: string,
    email: string,
    restaurantName: string,
    phone: string)

  /** The three fields the search looks at, in the order they are tried. */
  function SearchFields(admin: Admin): (fields: (string, string, string))
  {
    (admin.name, admin.email, admin.restaurantName)
  }

  /**
   The filter callback: the lower-cased query is a substring of the lower-cased
   name, e-mail or restaurant name.
   */
  predicate Matches(admin: Admin, query: string)
    ensures Matches(admin, query) <==>
      || Occurs(ToLowerCase(admin.name), ToLowerCase(query))
      || Occurs(ToLowerCase(admin.email), ToLowerCase(query))
      || Occurs(ToLowerCase(admin.restaurantName), ToLowerCase(query))
  {
    var q := ToLowerCase(query);
    IncludesIffOccurs(ToLowerCase(admin.name), q);
    IncludesIffOccurs(ToLowerCase(admin.email), q);
    IncludesIffOccurs(ToLowerCase(admin.restaurantName), q);
    || Includes(ToLowerCase(admin.name), q)
    || Includes(ToLowerCase(admin.email), q)
    || Includes(ToLowerCase(admin.restaurantName), q)
  }

  /** `admins.filter(admin => Matches(admin, query))`. */
  function FilteredAdmins(admins: seq<Admin>, query: string): (r: seq<Admin>)
    ensures |r| <= |admins|
    ensures forall a :: a in r ==> a in admins && Matches(a, query)
  {
    if admins == [] then []
    else
      var rest := FilteredAdmins(admins[1..], query);
      if Matches(admins[0], query) then [admins[0]] + rest else rest
  }

  /** Adds one to every index, for the positions of a list's tail. */
  ghost function Shift(ks: seq<nat>): (r: seq<nat>)
    ensures |r| == |ks|
    ensures forall k :: 0 <= k < |ks| ==> r[k] == ks[k] + 1
  {
    seq(|ks|, k requires 0 <= k < |ks| => ks[k] + 1)
  }

  /** The positions in `admins` of the records the filter keeps, in ascending order. */
  ghost function KeptIndices(admins: seq<Admin>, query: string): seq<nat>
  {
    if admins == [] then []
    else
      var rest := Shift(KeptIndices(admins[1..], query));
      if Matches(admins[0], query) then [0] + rest else rest
  }

  ghost predicate StrictlyIncreasing(ks: seq<nat>) {
    forall k, l :: 0 <= k < l < |ks| ==> ks[k] < ks[l]
  }

  /** The kept positions are strictly increasing, so the original order is kept. */
  lemma {:induction false} KeptIndicesIncreasing(admins: seq<Admin>, query: string)
    ensures StrictlyIncreasing(KeptIndices(admins, query))
  {
    if admins != [] {
      KeptIndicesIncreasing(admins[1..], query);
      var sh := Shift(KeptIndices(admins[1..], query));
      assert StrictlyIncreasing(sh);
      assert forall k :: 0 <= k < |sh| ==> sh[k] >= 1;
    }
  }

  /**
   One kept position per record of the filtered list, each inside `admins`, and
   the filtered list holds, in turn, the records at those positions.
   */
  lemma {:induction false} KeptIndicesSelect(admins: seq<Admin>, query: string)
    ensures |KeptIndices(admins, query)| == |FilteredAdmins(admins, query)|
    ensures forall k :: 0 <= k < |KeptIndices(admins, query)| ==>
      KeptIndices(admins, query)[k] < |admins| &&
      FilteredAdmins(admins, query)[k] == admins[KeptIndices(admins, query)[k]]
  {
    if admins != [] {
      var tail := admins[1..];
      KeptIndicesSelect(tail, query);
      var ts, rs := KeptIndices(tail, query), FilteredAdmins(tail, query);
      var sh := Shift(ts);
      assert forall k :: 0 <= k < |sh| ==> rs[k] == admins[sh[k]];
    }
  }

  /** A position is kept exactly when the record there matches. */
  lemma {:induction false} KeptIndicesExact(admins: seq<Admin>, query: string, i: nat)
    requires i < |admins|
    ensures i in KeptIndices(admins, query) <==> Matches(admins[i], query)
  {
    var tail := admins[1..];
    var ts := KeptIndices(tail, query);
    var sh := Shift(ts);
    KeptIndicesSelect(tail, query);
    assert 0 !in sh;
    if i > 0 {
      KeptIndicesExact(tail, query, i - 1);
      assert admins[i] == tail[i - 1];
      if i in sh {
        var k :| 0 <= k < |sh| && sh[k] == i;
        assert ts[k] == i - 1;
      }
      if i - 1 in ts {
        var k :| 0 <= k < |ts| && ts[k] == i - 1;
        assert sh[k] == i;
      }
    }
  }

  /**
   The filtered list is exactly the subsequence of `admins` at the matching
   positions: the positions are increasing (order is kept), every one of them
   matches (soundness), and every matching position is among them
   (completeness).
   */
  lemma FilteredIsMatchingSubsequence(admins: seq<Admin>, query: string)
    ensures var ks, r := KeptIndices(admins, query), FilteredAdmins(admins, query);
      && |ks| == |r|
      && StrictlyIncreasing(ks)
      && (forall k :: 0 <= k < |ks| ==> ks[k] < |admins| && r[k] == admins[ks[k]])
      && (forall i :: 0 <= i < |admins| ==> (i in ks <==> Matches(admins[i], query)))
  {
    KeptIndicesIncreasing(admins, query);
    KeptIndicesSelect(admins, query);
    forall i | 0 <= i < |admins|
      ensures i in KeptIndices(admins, query) <==> Matches(admins[i], query)
    {
      KeptIndicesExact(admins, query, i);
    }
  }

  /**
   Soundness, by position: the record at each index of the filtered list
   matches the query (the index form of `FilteredAdmins`' membership ensures).
   */
  lemma FilteredSound(admins: seq<Admin>, query: string, k: nat)
    requires k < |FilteredAdmins(admins, query)|
    ensures Matches(FilteredAdmins(admins, query)[k], query)
  {
    FilteredIsMatchingSubsequence(admins, query);
  }

  /** Completeness: every matching record of `admins` appears in the filtered list. */
  lemma FilteredComplete(admins: seq<Admin>, query: string, i: nat)
    requires i < |admins| && Matches(admins[i], query)
    ensures admins[i] in FilteredAdmins(admins, query)
  {
    FilteredIsMatchingSubsequence(admins, query);
    var ks := KeptIndices(admins, query);
    var k :| 0 <= k < |ks| && ks[k] == i;
    assert FilteredAdmins(admins, query)[k] == admins[i];
  }

  /** Every string includes "", so the empty query keeps the whole list unchanged. */
  lemma {:induction false} EmptyQueryKeepsAll(admins: seq<Admin>)
    ensures FilteredAdmins(admins, "") == admins
  {
    if admins != [] {
      assert ToLowerCase("") == "";
      assert Matches(admins[0], "");
      EmptyQueryKeepsAll(admins[1..]);
      assert admins == [admins[0]] + admins[1..];
    }
  }

  /** Queries that lower-case to the same string give the same filtered list. */
  lemma {:induction false} QueryCaseIgnored(admins: seq<Admin>, q1: string, q2: string)
    requires ToLowerCase(q1) == ToLowerCase(q2)
    ensures FilteredAdmins(admins, q1) == FilteredAdmins(admins, q2)
  {
    if admins != [] {
      QueryCaseIgnored(admins[1..], q1, q2);
    }
  }

  /** In particular a query and its lower-cased form filter alike. */
  lemma QueryLoweredFiltersAlike(admins: seq<Admin>, query: string)
    ensures FilteredAdmins(admins, query) == FilteredAdmins(admins, ToLowerCase(query))
  {
    ToLowerCaseIdempotent(query);
    QueryCaseIgnored(admins, query, ToLowerCase(query));
  }

  /** A record that contains the query verbatim in one of the three fields matches. */
  lemma VerbatimHitMatches(admin: Admin, query: string)
    requires || Includes(admin.name, query)
             || Includes(admin.email, query)
             || Includes(admin.restaurantName, query)
    ensures Matches(admin, query)
  {
    if Includes(admin.name, query) {
      LowerPreservesIncludes(admin.name, query);
    } else if Includes(admin.email, query) {
      LowerPreservesIncludes(admin.email, query);
    } else {
      LowerPreservesIncludes(admin.restaurantName, query);
    }
  }

  /**
   `role` and `phone` play no part: two lists whose records agree position by
   position on name, e-mail and restaurant name keep the same positions and
   filtered lists of the same length.
   */
  lemma {:induction false} RoleAndPhoneIgnored(xs: seq<Admin>, ys: seq<Admin>, query: string)
    requires |xs| == |ys|
    requires forall i :: 0 <= i < |xs| ==> SearchFields(xs[i]) == SearchFields(ys[i])
    ensures KeptIndices(xs, query) == KeptIndices(ys, query)
    ensures |FilteredAdmins(xs, query)| == |FilteredAdmins(ys, query)|
  {
    FilteredIsMatchingSubsequence(xs, query);
    FilteredIsMatchingSubsequence(ys, query);
    if xs != [] {
      assert SearchFields(xs[0]) == SearchFields(ys[0]);
      assert Matches(xs[0], query) == Matches(ys[0], query);
      RoleAndPhoneIgnored(xs[1..], ys[1..], query) by {
        forall i | 0 <= i < |xs| - 1
          ensures SearchFields(xs[1..][i]) == SearchFields(ys[1..][i])
        {
          assert xs[1..][i] == xs[i + 1];
          assert ys[1..][i] == ys[i + 1];
        }
      }
    }
  }

  /** Filtering the filtered list again with the same query changes nothing. */
  lemma {:induction false} FilterIdempotent(admins: seq<Admin>, query: string)
    ensures FilteredAdmins(FilteredAdmins(admins, query), query) == FilteredAdmins(admins, query)
  {
    if admins != [] {
      var tail := admins[1..];
      FilterIdempotent(tail, query);
      var rest := FilteredAdmins(tail, query);
      if Matches(admins[0], query) {
        var r := [admins[0]] + rest;
        assert r[0] == admins[0] && r[1..] == rest;
      }
    }
  }

  /**
   Typing more characters only narrows the list: every position kept for
   `query + more` is kept for `query`.
   */
  lemma ExtendingQueryNarrows(admins: seq<Admin>, query: string, more: string, i: nat)
    requires i in KeptIndices(admins, query + more)
    ensures i in KeptIndices(admins, query)
  {
    FilteredIsMatchingSubsequence(admins, query + more);
    FilteredIsMatchingSubsequence(admins, query);
    var a := admins[i];
    ToLowerCaseAppend(query, more);
    var q, m := ToLowerCase(query), ToLowerCase(more);
    if Includes(ToLowerCase(a.name), q + m) {
      IncludesPrefix(ToLowerCase(a.name), q, m);
    } else if Includes(ToLowerCase(a.email), q + m) {
      IncludesPrefix(ToLowerCase(a.email), q, m);
    } else {
      IncludesPrefix(ToLowerCase(a.restaurantName), q, m);
    }
  }

  // ---------------------------------------------------------------------------
  // Screen state

  /** The screen's state: the `searchQuery` and `admins` hooks. */
  datatype State = State(searchQuery: string, admins: seq<Admin>)

  /** The state on first render: an empty query and the two built-in records. */
  function InitialState(): (s: State)
    ensures s.searchQuery == "" && |s.admins| == 2
    ensures s.admins[0] == Admin("John Doe", "Admin", "john@example.com", "Munchies", "123-456-7890")
    ensures s.admins[1] == Admin("Jane Smith", "Manager", "jane@example.com", "Food Palace", "987-654-3210")
  {
    State("", [
      Admin("John Doe", "Admin", "john@example.com", "Munchies", "123-456-7890"),
      Admin("Jane Smith", "Manager", "jane@example.com", "Food Palace", "987-654-3210")])
  }

  /** What the list shows: `filteredAdmins`, recomputed from the current state. */
  function Visible(s: State): (r: seq<Admin>)
    ensures |r| <= |s.admins|
  {
    FilteredAdmins(s.admins, s.searchQuery)
  }

  /** `handleSearch(text)`: replaces the query with the typed text; the admins stay. */
  function HandleSearch(s: State, text: string): (r: State)
    ensures r.searchQuery == text
    ensures r.admins == s.admins
    ensures Visible(r) == FilteredAdmins(s.admins, text)
  {
    s.(searchQuery := text)
  }

  /** On first render every admin is listed. */
  lemma InitialShowsAll()
    ensures Visible(InitialState()) == InitialState().admins
  {
    EmptyQueryKeepsAll(InitialState().admins);
  }

  /** Clearing the search box, after any sequence of searches, lists every admin again. */
  lemma ClearingSearchShowsAll(s: State, text: string)
    ensures Visible(HandleSearch(HandleSearch(s, text), "")) == s.admins
  {
    EmptyQueryKeepsAll(s.admins);
  }

  /** Filtering a two-record list keeps each record on its own merits. */
  lemma FilterPair(a: Admin, b: Admin, query: string)
    ensures FilteredAdmins([a, b], query) ==
      (if Matches(a, query) then [a] else []) + (if Matches(b, query) then [b] else [])
  {
    assert [a, b][1..] == [b];
    assert [b][1..] == [];
  }

  /** A record whose e-mail is "<user>@example.com", in any case, matches "EXAMPLE.com". */
  lemma DomainMatches(a: Admin, user: string)
    requires ToLowerCase(a.email) == user + "@example.com"
    ensures Matches(a, "EXAMPLE.com")
  {
    assert ToLowerCase("EXAMPLE.com") == "example.com";
    assert user + "@example.com" == (user + "@") + "example.com" + "";
    IncludesInfix(user + "@", "example.com", "");
  }

  /** On the initial list, searching "EXAMPLE.com" lists both admins (by e-mail, any case). */
  lemma SearchByDomainListsBoth()
    ensures Visible(HandleSearch(InitialState(), "EXAMPLE.com")) == InitialState().admins
  {
    var admins := InitialState().admins;
    assert ToLowerCase(admins[0].email) == "john" + "@example.com";
    assert ToLowerCase(admins[1].email) == "jane" + "@example.com";
    DomainMatches(admins[0], "john");
    DomainMatches(admins[1], "jane");
    FilterPair(admins[0], admins[1], "EXAMPLE.com");
  }

  /** A record from the restaurant "Munchies", in any case, matches "Munch". */
  lemma RestaurantMatches(a: Admin)
    requires ToLowerCase(a.restaurantName) == "munchies"
    ensures Matches(a, "Munch")
  {
    assert ToLowerCase("Munch") == "munch";
    assert "munchies" == "" + "munch" + "ies";
    IncludesInfix("", "munch", "ies");
  }

  /** A record with no 'u' in its three searched fields does not match "Munch". */
  lemma NoUNoMatch(a: Admin)
    requires 'u' !in ToLowerCase(a.name)
    requires 'u' !in ToLowerCase(a.email)
    requires 'u' !in ToLowerCase(a.restaurantName)
    ensures !Matches(a, "Munch")
  {
    assert ToLowerCase("Munch") == "munch";
    assert 'u' in "munch";
    AbsentCharExcludes(ToLowerCase(a.name), "munch", 'u');
    AbsentCharExcludes(ToLowerCase(a.email), "munch", 'u');
    AbsentCharExcludes(ToLowerCase(a.restaurantName), "munch", 'u');
  }

  /** On the initial list, searching "Munch" lists John Doe alone (by restaurant name). */
  lemma SearchByRestaurantListsOne()
    ensures Visible(HandleSearch(InitialState(), "Munch")) == [InitialState().admins[0]]
  {
    var admins := InitialState().admins;
    assert ToLowerCase(admins[0].restaurantName) == "munchies";
    RestaurantMatches(admins[0]);
    assert ToLowerCase(admins[1].name) == "jane smith";
    assert ToLowerCase(admins[1].email) == "jane@example.com";
    assert ToLowerCase(admins[1].restaurantName) == "food palace";
    NoUNoMatch(admins[1]);
    FilterPair(admins[0], admins[1], "Munch");
  }
}
