/** The rating aggregator (`CompanyRatingsController.GetCompanyRating`): the
    number of a company's reviews and their mean rating rounded to one decimal.
    The rows are the list the database query returns. The mean is kept exact
    and given in tenths; the rounding is .NET's default for
    `Math.Round(value, 1)`, to the nearest tenth with ties to the even tenth. */
module CompanyRatings {
  import opened Common
  import opened Models
  import Reviews

  /** The answer: the rounded mean in tenths (40 stands for 4.0) and the
      number of reviews; a company without reviews gets 0 and 0. */
  datatype CompanyRating = CompanyRating(tenths: int, reviewCount: nat)

  function Abs(x: int): nat
  {
    if x < 0 then -x else x
  }

  /** `t` tenths is the mean `total / count` rounded to one decimal, ties to
      even: `t / 10` is no further than half a tenth from the mean, and exactly
      half a tenth only when `t` is even. Written over integers: the mean in
      tenths is `10 * total / count`. */
  ghost predicate IsRoundedMean(t: int, total: int, count: int)
  {
    && count > 0
    && 2 * Abs(10 * total - t * count) <= count
    && (2 * Abs(10 * total - t * count) == count ==> t % 2 == 0)
  }

  /** `n / d` rounded to the nearest integer, ties to the even one. */
  function RoundHalfEven(n: int, d: int): (t: int)
    requires d > 0
    ensures 2 * Abs(n - t * d) <= d
    ensures 2 * Abs(n - t * d) == d ==> t % 2 == 0
  {
    var q, r := n / d, n % d;
    assert n - q * d == r;
    assert n - (q + 1) * d == r - d;
    if 2 * r < d then q
    else if 2 * r > d then q + 1
    else if q % 2 == 0 then q
    else q + 1
  }

  lemma MulMono(a: int, b: int, d: int)
    requires a <= b && d > 0
    ensures a * d <= b * d
  {
  }

  /** Two integers at least one apart, scaled by a positive `d`, are at least
      `d` apart, and at least `2 * d` apart when they differ by two or more. */
  lemma ScaledGap(a: int, b: int, d: int)
    requires d > 0
    ensures b * d - a * d == (b - a) * d
    ensures a < b ==> b * d - a * d >= d
    ensures a + 1 < b ==> b * d - a * d >= 2 * d
  {
    assert b * d - a * d == (b - a) * d;
    if a < b {
      MulMono(1, b - a, d);
    }
    if a + 1 < b {
      MulMono(2, b - a, d);
    }
  }

  /** There is only one rounded mean: the reference definition pins the answer. */
  lemma RoundedMeanUnique(t1: int, t2: int, total: int, count: int)
    requires IsRoundedMean(t1, total, count) && IsRoundedMean(t2, total, count)
    ensures t1 == t2
  {
    ScaledGap(t1, t2, count);
    ScaledGap(t2, t1, count);
  }

  /** A rounded mean lies between any bounds the exact mean lies between. */
  lemma RoundedMeanBetween(t: int, total: int, count: int, lo: int, hi: int)
    requires IsRoundedMean(t, total, count)
    requires lo * count <= 10 * total <= hi * count
    ensures lo <= t <= hi
  {
    ScaledGap(hi, t, count);
    ScaledGap(t, lo, count);
  }

  /** The rows of one company (`Where(r => r.CompanyId == companyId)`), in
      the order they come. */
  function CompanyRows(rows: seq<Review>, companyId: string): (m: seq<Review>)
    ensures |m| <= |rows|
    ensures forall r :: r in m <==> r in rows && r.companyId == companyId
  {
    if rows == [] then []
    else if rows[0].companyId == companyId then [rows[0]] + CompanyRows(rows[1..], companyId)
    else CompanyRows(rows[1..], companyId)
  }

  /** The sum of the ratings of a list of rows (what `Average` divides). */
  function RatingSum(rows: seq<Review>): int
  {
    if rows == [] then 0 else rows[0].rating + RatingSum(rows[1..])
  }

  /** Ratings within 1..5 sum to between one and five times their number. */
  lemma {:induction false} RatingSumBounds(rows: seq<Review>)
    requires forall i :: 0 <= i < |rows| ==> 1 <= rows[i].rating <= 5
    ensures |rows| <= RatingSum(rows) <= 5 * |rows|
  {
    if rows != [] {
      RatingSumBounds(rows[1..]);
    }
  }

  /** `GetCompanyRating`: an empty id is refused; a company without reviews
      gets 0 and 0; otherwise the count of its reviews and their mean rating
      rounded to one decimal, ties to even. */
  function GetCompanyRating(rows: seq<Review>, companyId: string): (r: Response<CompanyRating>)
    ensures r.BadRequest? <==> companyId == ""
    ensures companyId != "" ==> r.Ok?
    ensures r.Ok? ==> r.value.reviewCount == |CompanyRows(rows, companyId)|
    ensures r.Ok? ==> (r.value.reviewCount == 0 <==> forall row :: row in rows ==> row.companyId != companyId)
    ensures r.Ok? && r.value.reviewCount == 0 ==> r.value.tenths == 0
    ensures r.Ok? && r.value.reviewCount > 0 ==>
              IsRoundedMean(r.value.tenths, RatingSum(CompanyRows(rows, companyId)), r.value.reviewCount)
  {
    if companyId == "" then BadRequest(EmptyCompanyId)
    else
      var matching := CompanyRows(rows, companyId);
      if |matching| == 0 then Ok(CompanyRating(0, 0))
      else Ok(CompanyRating(RoundHalfEven(10 * RatingSum(matching), |matching|), |matching|))
  }

  /** With every rating within 1..5, a company that has reviews gets a rating
      between 1.0 and 5.0. */
  lemma RatingWithinBounds(rows: seq<Review>, companyId: string)
    requires forall i :: 0 <= i < |rows| ==> 1 <= rows[i].rating <= 5
    requires companyId != ""
    ensures var r := GetCompanyRating(rows, companyId);
            r.value.reviewCount > 0 ==> 10 <= r.value.tenths <= 50
  {
    var matching := CompanyRows(rows, companyId);
    var r := GetCompanyRating(rows, companyId);
    if |matching| > 0 {
      assert forall i :: 0 <= i < |matching| ==> matching[i] in rows;
      RatingSumBounds(matching);
      var c := |matching|;
      assert 10 * c <= 10 * RatingSum(matching) <= 50 * c;
      RoundedMeanBetween(r.value.tenths, RatingSum(matching), c, 10, 50);
    }
  }

  /** Rows read from the review controller's table always give such a rating. */
  lemma StoredRatingWithinBounds(controller: Reviews.ReviewsController, rows: seq<Review>, companyId: string)
    requires controller.Valid()
    requires forall i :: 0 <= i < |rows| ==> rows[i].id in controller.reviews && controller.reviews[rows[i].id] == rows[i]
    requires companyId != ""
    ensures var r := GetCompanyRating(rows, companyId);
            r.value.reviewCount > 0 ==> 10 <= r.value.tenths <= 50
  {
    RatingWithinBounds(rows, companyId);
  }

  /** Taking out the row at `i` takes out its rating from the sum. */
  lemma {:induction false} RatingSumRemoveAt(rows: seq<Review>, i: nat)
    requires i < |rows|
    ensures RatingSum(rows) == rows[i].rating + RatingSum(rows[..i] + rows[i + 1..])
  {
    if i > 0 {
      RatingSumRemoveAt(rows[1..], i - 1);
      assert rows[1..][..i - 1] + rows[1..][i..] == (rows[..i] + rows[i + 1..])[1..];
    } else {
      assert rows[..i] + rows[i + 1..] == rows[1..];
    }
  }

  /** The position of a row known to be in the list. */
  function Position(rows: seq<Review>, row: Review): (i: nat)
    requires row in rows
    ensures i < |rows| && rows[i] == row
  {
    if rows[0] == row then 0 else 1 + Position(rows[1..], row)
  }

  /** The sum depends only on which rows there are, not on their order. */
  lemma {:induction false} RatingSumPermutation(a: seq<Review>, b: seq<Review>)
    requires multiset(a) == multiset(b)
    ensures RatingSum(a) == RatingSum(b)
    decreases |a|
  {
    if a == [] {
      assert |b| == |multiset(b)| == 0;
    } else {
      assert a[0] in multiset(b);
      var j := Position(b, a[0]);
      var rest := b[..j] + b[j + 1..];
      assert b == b[..j] + [b[j]] + b[j + 1..];
      assert a == [a[0]] + a[1..];
      assert multiset(b) == multiset(b[..j]) + multiset{a[0]} + multiset(b[j + 1..]);
      assert multiset(rest) == multiset(b[..j]) + multiset(b[j + 1..]);
      assert multiset(a) == multiset{a[0]} + multiset(a[1..]);
      assert multiset(a[1..]) == multiset(a) - multiset{a[0]};
      assert multiset(rest) == multiset(b) - multiset{a[0]};
      RatingSumPermutation(a[1..], rest);
      RatingSumRemoveAt(b, j);
    }
  }

  /** How often a row occurs among a company's rows. */
  lemma {:induction false} CompanyRowsMultiset(rows: seq<Review>, companyId: string, row: Review)
    ensures multiset(CompanyRows(rows, companyId))[row] ==
            if row.companyId == companyId then multiset(rows)[row] else 0
  {
    if rows != [] {
      CompanyRowsMultiset(rows[1..], companyId, row);
      assert rows == [rows[0]] + rows[1..];
    }
  }

  /** The answer does not depend on the order the database returns the rows in. */
  lemma RatingIndependentOfOrder(a: seq<Review>, b: seq<Review>, companyId: string)
    requires multiset(a) == multiset(b)
    ensures GetCompanyRating(a, companyId) == GetCompanyRating(b, companyId)
  {
    var ma, mb := CompanyRows(a, companyId), CompanyRows(b, companyId);
    forall row: Review ensures multiset(ma)[row] == multiset(mb)[row] {
      CompanyRowsMultiset(a, companyId, row);
      CompanyRowsMultiset(b, companyId, row);
    }
    assert multiset(ma) == multiset(mb);
    assert |ma| == |multiset(ma)| == |multiset(mb)| == |mb|;
    RatingSumPermutation(ma, mb);
  }

  /** Ratings 4, 5 and 3 give 4.0 from three reviews. */
  lemma ExampleFourFiveThree(a: Review, b: Review, c: Review, companyId: string)
    requires companyId != ""
    requires a.companyId == companyId && b.companyId == companyId && c.companyId == companyId
    requires a.rating == 4 && b.rating == 5 && c.rating == 3
    ensures GetCompanyRating([a, b, c], companyId) == Ok(CompanyRating(40, 3))
  {
    var rows := [a, b, c];
    assert CompanyRows(rows[2..], companyId) == rows[2..];
    assert CompanyRows(rows[1..], companyId) == rows[1..];
    assert CompanyRows(rows, companyId) == rows;
    assert [c][1..] == [] && [b, c][1..] == [c] && rows[1..] == [b, c];
    assert RatingSum([c]) == 3;
    assert RatingSum([b, c]) == 8;
  }

  /** Ratings 4, 4 and 3 have mean 3.666..., which rounds up to 3.7; another
      company's review among them does not count. */
  lemma ExampleRounding(a: Review, b: Review, other: Review, c: Review, companyId: string)
    requires companyId != ""
    requires a.companyId == companyId && b.companyId == companyId && c.companyId == companyId
    requires other.companyId != companyId
    requires a.rating == 4 && b.rating == 4 && c.rating == 3
    ensures GetCompanyRating([a, b, other, c], companyId) == Ok(CompanyRating(37, 3))
  {
    var rows, mine := [a, b, other, c], [a, b, c];
    assert CompanyRows(rows[3..], companyId) == mine[2..];
    assert CompanyRows(rows[2..], companyId) == mine[2..];
    assert CompanyRows(rows[1..], companyId) == mine[1..];
    assert CompanyRows(rows, companyId) == mine;
    assert [c][1..] == [] && [b, c][1..] == [c] && mine[1..] == [b, c];
    assert RatingSum([c]) == 3;
    assert RatingSum([b, c]) == 7;
    assert RoundHalfEven(110, 3) == 37;
  }

  /** Ties go to the even tenth: a mean of 4.25 gives 4.2 and 4.75 gives 4.8. */
  lemma ExampleTiesToEven()
    ensures RoundHalfEven(10 * 17, 4) == 42
    ensures RoundHalfEven(10 * 19, 4) == 48
  {
  }
}
