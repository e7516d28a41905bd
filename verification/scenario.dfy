/** An end-to-end run of the data layer on a store with no keys written:
    an administrator and a teacher are created, the teacher creates a
    portfolio, which is viewed three times, liked, rated and un-liked. */
module Scenario {
  import opened Wrappers
  import opened Types
  import opened Storage
  import opened UserStore
  import opened PortfolioStore
  import opened Aggregation

  const Admin1 := User("id-a", "root", Some("pw"), "Root", Admin)
  const Teacher1 := User("id-t", "t1", Some("pw"), "Teacher One", Teacher)
  const Draft := PortfolioDraft("id-t", "Title", "Text", Personnel, Application, "cover", [])

  /** Creating the two users on an empty store. */
  lemma CreateTwoUsers()
    ensures var r1 := CreateUser(EmptyStore, UserDraft("root", Some("pw"), "Root", Admin), "id-a");
      && r1.Success?
      && var r2 := CreateUser(r1.value.0, UserDraft("t1", Some("pw"), "Teacher One", Teacher), "id-t");
      && r2.Success?
      && LoadUsers(r2.value.0) == [Admin1, Teacher1]
      && r2.value.0.portfoliosDoc.None?
  {
    var r1 := CreateUser(EmptyStore, UserDraft("root", Some("pw"), "Root", Admin), "id-a");
    assert LoadUsers(r1.value.0) == [Admin1];
    assert !UsernameTaken([Admin1], "t1");
  }

  /** In a store holding a single portfolio, the aggregation operations act
      on that portfolio alone. */
  lemma SinglePortfolioSteps(st: Store, q: Portfolio, userId: string, score: int, n: nat)
    requires LoadPortfolios(st) == [q]
    ensures LoadPortfolios(IncrementViewTimes(st, q.id, n)) == [q.(views := q.views + n)]
    ensures LoadPortfolios(ToggleLike(st, q.id, userId)) == [q.(likes := ToggledLikes(q.likes, userId))]
    ensures LoadPortfolios(Rate(st, q.id, userId, score)) == [q.(ratings := UpsertRating(q.ratings, userId, score))]
  {
    assert PortfolioIndex([q], q.id) == 0;
    IncrementViewTimesAddsN(st, q.id, n);
  }

  /** The teacher creates a portfolio: no views, likes or ratings, and the
      teacher's full name as author name. */
  lemma TeacherCreatesPortfolio(st: Store)
    requires LoadUsers(st) == [Admin1, Teacher1] && st.portfoliosDoc.None?
    ensures var r := CreatePortfolio(st, Draft, "id-p", "2024-01-01T00:00:00.000Z");
      && r.Success?
      && var p := r.value.1;
      && LoadPortfolios(r.value.0) == [p]
      && p.id == "id-p" && p.views == 0 && p.likes == [] && p.ratings == []
      && p.authorName == "Teacher One"
  {
    assert UserIndex([Admin1, Teacher1], "id-t") == 1;
  }

  /** The whole run: three views give a counter of 3, the like and the
      rating of 4 are recorded, and the second toggle removes the like. */
  lemma EndToEnd()
    ensures var r1 := CreateUser(EmptyStore, UserDraft("root", Some("pw"), "Root", Admin), "id-a");
      var r2 := CreateUser(r1.value.0, UserDraft("t1", Some("pw"), "Teacher One", Teacher), "id-t");
      var r3 := CreatePortfolio(r2.value.0, Draft, "id-p", "2024-01-01T00:00:00.000Z");
      var p := r3.value.1;
      var s4 := IncrementViewTimes(r3.value.0, "id-p", 3);
      var s5 := ToggleLike(s4, "id-p", "id-t");
      var s6 := Rate(s5, "id-p", "id-t", 4);
      var s7 := ToggleLike(s6, "id-p", "id-t");
      && r1.Success? && r2.Success? && r3.Success?
      && LoadPortfolios(s4) == [p.(views := 3)]
      && LoadPortfolios(s5) == [p.(views := 3, likes := ["id-t"])]
      && LoadPortfolios(s6) == [p.(views := 3, likes := ["id-t"], ratings := [Rating("id-t", 4)])]
      && LoadPortfolios(s7) == [p.(views := 3, likes := [], ratings := [Rating("id-t", 4)])]
  {
    CreateTwoUsers();
    var r1 := CreateUser(EmptyStore, UserDraft("root", Some("pw"), "Root", Admin), "id-a");
    var r2 := CreateUser(r1.value.0, UserDraft("t1", Some("pw"), "Teacher One", Teacher), "id-t");
    TeacherCreatesPortfolio(r2.value.0);
    var r3 := CreatePortfolio(r2.value.0, Draft, "id-p", "2024-01-01T00:00:00.000Z");
    var p := r3.value.1;
    SinglePortfolioSteps(r3.value.0, p, "id-t", 4, 3);
    var s4 := IncrementViewTimes(r3.value.0, "id-p", 3);
    var p4 := p.(views := 3);
    SinglePortfolioSteps(s4, p4, "id-t", 4, 0);
    var s5 := ToggleLike(s4, "id-p", "id-t");
    assert ToggledLikes([], "id-t") == ["id-t"];
    var p5 := p4.(likes := ["id-t"]);
    assert LoadPortfolios(s5) == [p5];
    SinglePortfolioSteps(s5, p5, "id-t", 4, 0);
    assert UpsertRating([], "id-t", 4) == [Rating("id-t", 4)];
    var s6 := Rate(s5, "id-p", "id-t", 4);
    var p6 := p5.(ratings := [Rating("id-t", 4)]);
    assert LoadPortfolios(s6) == [p6];
    SinglePortfolioSteps(s6, p6, "id-t", 4, 0);
    ToggleTwiceFromUnliked([], "id-t");
  }
}
