/** The two stored entities: a review of a company and a company gallery
    image. Timestamps are plain integers supplied by the caller. */
module Models {
  import opened Common

  /** A row of the Reviews table. */
  datatype Review = Review(
    id: int,
    comment: string,
    imageUrls: seq<string>,
    rating: int,
    companyId: string,
    userId: string,
    userName: Option<string>,
    createdAt: int)

  /** A row of the Images table. */
  datatype Image = Image(
    id: int,
    imageUrl: string,
    companyId: string,
    userId: string,
    createdAt: int)

  /** The reviews of one company (`Where(r => r.CompanyId == companyId)`). */
  function ReviewsOfCompany(reviews: map<int, Review>, companyId: string): (m: map<int, Review>)
    ensures forall id :: id in m <==> id in reviews && reviews[id].companyId == companyId
    ensures forall id :: id in m ==> m[id] == reviews[id]
  {
    map id | id in reviews && reviews[id].companyId == companyId :: reviews[id]
  }
}
