/** Calendar dates, the keys of the price maps, ordered as `DateTime` orders
    them: by year, then month, then day. */
module Dates {

  datatype Date = Date(year: int, month: int, day: int)

  predicate Before(a: Date, b: Date) {
    || a.year < b.year
    || (a.year == b.year && a.month < b.month)
    || (a.year == b.year && a.month == b.month && a.day < b.day)
  }

  predicate StrictlyAscending(ds: seq<Date>) {
    forall i, j | 0 <= i < j < |ds| :: Before(ds[i], ds[j])
  }

  predicate IsEarliest(m: Date, s: set<Date>) {
    m in s && forall x | x in s :: !Before(x, m)
  }

  lemma BeforeTransitive(a: Date, b: Date, c: Date)
    requires Before(a, b) && Before(b, c)
    ensures Before(a, c)
  {
  }

  /** A non-empty finite set of dates has an earliest element. */
  lemma {:induction false} EarliestExists(s: set<Date>)
    requires s != {}
    ensures exists m :: IsEarliest(m, s)
    decreases |s|
  {
    var y :| y in s;
    if s == {y} {
      assert IsEarliest(y, s);
    } else {
      var rest := s - {y};
      EarliestExists(rest);
      var m :| IsEarliest(m, rest);
      if Before(y, m) {
        forall x | x in s ensures !Before(x, y) {
          if x != y && Before(x, y) {
            BeforeTransitive(x, y, m);
          }
        }
        assert IsEarliest(y, s);
      } else {
        assert IsEarliest(m, s);
      }
    }
  }

  /** `OrderBy(x => x)` over a set of distinct dates: every date exactly once,
      strictly ascending. */
  function Sorted(s: set<Date>): (r: seq<Date>)
    ensures StrictlyAscending(r)
    ensures forall d :: d in r <==> d in s
    ensures |r| == |s|
    decreases |s|
  {
    if s == {} then []
    else
      EarliestExists(s);
      var m :| IsEarliest(m, s);
      [m] + Sorted(s - {m})
  }
}
