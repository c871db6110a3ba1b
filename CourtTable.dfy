/**
 * The court table of the persistence layer (app/persistence/database/court.py):
 * a lookup by id, a listing by venue, both hiding unpublished courts unless
 * asked not to, and the partial edit of the published flag. The table is the
 * sequence of its rows; a query keeps the rows its WHERE clause accepts, in
 * table order.
 */
module CourtTable {
  import opened Base

  /** The `is_published = True` filter that both queries add by default. */
  predicate Visible(c: Court, includeUnpublished: bool) {
    includeUnpublished || c.isPublished
  }

  /** `read`: the row with the given id that passes the filter, else NotFound. */
  function Read(rows: seq<Court>, courtId: int, includeUnpublished: bool): (r: Result<Court>)
    ensures r.Ok? ==> r.value in rows && r.value.id == courtId && Visible(r.value, includeUnpublished)
    ensures r.Err? ==> r.error == NotFound
    ensures r.Err? <==> forall c :: c in rows && c.id == courtId ==> !Visible(c, includeUnpublished)
  {
    if |rows| == 0 then Err(NotFound)
    else if rows[0].id == courtId && Visible(rows[0], includeUnpublished) then Ok(rows[0])
    else Read(rows[1..], courtId, includeUnpublished)
  }

  /** `browse`: every row of the venue that passes the filter, in table order. */
  function Browse(rows: seq<Court>, venueId: int, includeUnpublished: bool): (r: seq<Court>)
    ensures forall c :: c in r <==> c in rows && c.venueId == venueId && Visible(c, includeUnpublished)
    ensures forall c ::
              multiset(r)[c] == if c.venueId == venueId && Visible(c, includeUnpublished) then multiset(rows)[c] else 0
    ensures |r| <= |rows|
  {
    assert |rows| > 0 ==> rows == [rows[0]] + rows[1..];
    if |rows| == 0 then []
    else if rows[0].venueId == venueId && Visible(rows[0], includeUnpublished)
    then [rows[0]] + Browse(rows[1..], venueId, includeUnpublished)
    else Browse(rows[1..], venueId, includeUnpublished)
  }

  /** The table after `UPDATE court SET is_published = v WHERE id = courtId`. */
  function WithPublished(rows: seq<Court>, courtId: int, v: bool): seq<Court> {
    seq(|rows|, i requires 0 <= i < |rows| =>
      if rows[i].id == courtId then rows[i].(isPublished := v) else rows[i])
  }

  /**
   * After an edit of the published flag, reading the court (unfiltered) gives
   * the same court with the new flag, and the default, filtered read finds it
   * exactly when the new flag is set.
   */
  lemma {:induction false} ReadAfterPublish(rows: seq<Court>, courtId: int, v: bool)
    ensures Read(WithPublished(rows, courtId, v), courtId, true)
         == (match Read(rows, courtId, true)
             case Ok(c) => Ok(c.(isPublished := v))
             case Err(e) => Err(e))
    ensures Read(WithPublished(rows, courtId, v), courtId, false).Ok?
        <==> v && Read(rows, courtId, true).Ok?
  {
    if |rows| > 0 {
      assert WithPublished(rows, courtId, v)[1..] == WithPublished(rows[1..], courtId, v);
      ReadAfterPublish(rows[1..], courtId, v);
    }
  }

  /** An edit of one court's flag changes no read of any other court. */
  lemma {:induction false} PublishLeavesOtherCourts(rows: seq<Court>, courtId: int, v: bool, other: int, includeUnpublished: bool)
    requires other != courtId
    ensures Read(WithPublished(rows, courtId, v), other, includeUnpublished) == Read(rows, other, includeUnpublished)
  {
    if |rows| > 0 {
      assert WithPublished(rows, courtId, v)[1..] == WithPublished(rows[1..], courtId, v);
      PublishLeavesOtherCourts(rows[1..], courtId, v, other, includeUnpublished);
    }
  }
}
