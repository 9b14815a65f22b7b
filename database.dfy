/** The image index: a table of (id, card_id, url) rows kept in insertion
    order, its queries, the max+1 id assignment and deletion by id. */
module Database {
  import opened Models

  /** Outcome of an index operation; NotFound stands for raising DBException. */
  datatype DbResult<T> = Ok(value: T) | NotFound

  /** The primary-key constraint: no two rows share an id. */
  ghost predicate UniqueIds(rows: seq<CardImage>) {
    forall i, j :: 0 <= i < |rows| && 0 <= j < |rows| && i != j ==> rows[i].id != rows[j].id
  }

  /** Some row carries the given id. */
  ghost predicate HasId(rows: seq<CardImage>, id: int) {
    exists x :: x in rows && x.id == id
  }

  /** The card filter of a query: no filter when no card id is given. */
  predicate MatchesCard(img: CardImage, cid: Option<int>) {
    cid.None? || img.cardId == cid.value
  }

  /** `query.first()`: the first row of a query result, if any. */
  function First(q: seq<CardImage>): DbResult<CardImage> {
    if q == [] then NotFound else Ok(q[0])
  }

  // ---------------------------------------------------------------- queries

  /** `query.filter(id == cid)`, in table order. */
  function FilterById(rows: seq<CardImage>, id: int): (r: seq<CardImage>)
    ensures forall x :: x in r <==> x in rows && x.id == id
  {
    if rows == [] then []
    else if rows[0].id == id then [rows[0]] + FilterById(rows[1..], id)
    else FilterById(rows[1..], id)
  }

  /** `query.filter(card_id == c)`, in table order: each row of the card
      exactly as often as in the table, and no other row. */
  function FilterByCard(rows: seq<CardImage>, c: int): (r: seq<CardImage>)
    ensures |r| <= |rows|
    ensures forall x :: x in r <==> x in rows && x.cardId == c
    ensures forall x :: multiset(r)[x] == if x.cardId == c then multiset(rows)[x] else 0
  {
    assert rows != [] ==> rows == [rows[0]] + rows[1..];
    if rows == [] then []
    else if rows[0].cardId == c then [rows[0]] + FilterByCard(rows[1..], c)
    else FilterByCard(rows[1..], c)
  }

  /** The head of a card filter is the first row of that card in table order. */
  lemma {:induction false} FilterByCardHead(rows: seq<CardImage>, c: int)
    requires FilterByCard(rows, c) != []
    ensures exists i :: 0 <= i < |rows| && rows[i] == FilterByCard(rows, c)[0] &&
                        rows[i].cardId == c && forall j :: 0 <= j < i ==> rows[j].cardId != c
  {
    if rows[0].cardId != c {
      FilterByCardHead(rows[1..], c);
      var k :| 0 <= k < |rows[1..]| && rows[1..][k] == FilterByCard(rows[1..], c)[0] &&
               rows[1..][k].cardId == c && forall j :: 0 <= j < k ==> rows[1..][j].cardId != c;
      assert rows[k + 1] == FilterByCard(rows, c)[0];
      forall j | 0 <= j < k + 1 ensures rows[j].cardId != c {
        if j > 0 { assert rows[j] == rows[1..][j - 1]; }
      }
    }
  }

  /** get_card_image_by_id: the row with that id, NotFound when there is none. */
  function CardImageById(rows: seq<CardImage>, cid: int): (r: DbResult<CardImage>)
    ensures r.Ok? <==> HasId(rows, cid)
    ensures r.Ok? ==> r.value in rows && r.value.id == cid
  {
    var q := FilterById(rows, cid);
    assert q != [] ==> q[0] in q;
    First(q)
  }

  /** get_all_card_images: every row, or exactly the rows of one card, each
      once for each time it is in the table. An empty result is an ordinary
      answer, not an error. */
  function AllCardImages(rows: seq<CardImage>, cid: Option<int>): (r: seq<CardImage>)
    ensures forall x :: x in r <==> x in rows && MatchesCard(x, cid)
    ensures forall x :: multiset(r)[x] == if MatchesCard(x, cid) then multiset(rows)[x] else 0
    ensures cid.None? ==> r == rows
  {
    if cid.None? then rows else FilterByCard(rows, cid.value)
  }

  lemma AllCardImagesHead(rows: seq<CardImage>, cid: Option<int>)
    ensures var q := AllCardImages(rows, cid);
            q != [] ==> (q[0] in q &&
                         exists i :: 0 <= i < |rows| && rows[i] == q[0] && MatchesCard(rows[i], cid) &&
                                     forall j :: 0 <= j < i ==> !MatchesCard(rows[j], cid))
  {
    var q := AllCardImages(rows, cid);
    if q != [] {
      if cid.Some? {
        FilterByCardHead(rows, cid.value);
      } else {
        assert rows[0] == q[0];
      }
    }
  }

  /** get_any_card_image: the first row in table order that passes the card
      filter, NotFound exactly when no row passes it. */
  function AnyCardImage(rows: seq<CardImage>, cid: Option<int>): (r: DbResult<CardImage>)
    ensures r.NotFound? <==> forall x :: x in rows ==> !MatchesCard(x, cid)
    ensures r.Ok? ==> exists i :: 0 <= i < |rows| && rows[i] == r.value && MatchesCard(rows[i], cid) &&
                                  forall j :: 0 <= j < i ==> !MatchesCard(rows[j], cid)
  {
    AllCardImagesHead(rows, cid);
    First(AllCardImages(rows, cid))
  }

  // ------------------------------------------------------- id assignment

  /** `func.max(id)`: the largest id in the table, None for an empty table. */
  function MaxId(rows: seq<CardImage>): (m: Option<int>)
    ensures m.None? <==> rows == []
    ensures m.Some? ==> (exists x :: x in rows && x.id == m.value) &&
                        forall x :: x in rows ==> x.id <= m.value
  {
    if rows == [] then None
    else
      var tail := rows[1..];
      assert forall x :: x in rows <==> x == rows[0] || x in tail;
      match MaxId(tail)
      case None => Some(rows[0].id)
      case Some(k) => Some(if rows[0].id >= k then rows[0].id else k)
  }

  /** The id insert_new_card_image assigns: 0 for an empty table, otherwise
      one more than the largest id present, hence above every id present. */
  function NextId(rows: seq<CardImage>): (n: int)
    ensures rows == [] ==> n == 0
    ensures rows != [] ==> exists x :: x in rows && n == x.id + 1
    ensures forall x :: x in rows ==> x.id < n
  {
    match MaxId(rows)
    case None => 0
    case Some(m) => m + 1
  }

  // ------------------------------------------------------------ deletion

  /** What `query.filter(id == cid).delete()` leaves: the other rows, in order. */
  function WithoutId(rows: seq<CardImage>, id: int): (r: seq<CardImage>)
    ensures |r| <= |rows|
    ensures forall x :: x in r <==> x in rows && x.id != id
    ensures !HasId(rows, id) ==> r == rows
  {
    if rows == [] then []
    else if rows[0].id == id then WithoutId(rows[1..], id)
    else [rows[0]] + WithoutId(rows[1..], id)
  }

  lemma {:induction false} WithoutIdAppend(a: seq<CardImage>, b: seq<CardImage>, id: int)
    ensures WithoutId(a + b, id) == WithoutId(a, id) + WithoutId(b, id)
  {
    if a == [] {
      assert a + b == b;
    } else {
      assert (a + b)[0] == a[0];
      assert (a + b)[1..] == a[1..] + b;
      WithoutIdAppend(a[1..], b, id);
    }
  }

  // -------------------------------------------------- uniqueness of ids

  lemma UniqueIdsTail(rows: seq<CardImage>)
    requires UniqueIds(rows) && rows != []
    ensures UniqueIds(rows[1..])
    ensures forall x :: x in rows[1..] ==> x.id != rows[0].id
  {
  }

  lemma UniqueIdsCons(a: CardImage, s: seq<CardImage>)
    requires UniqueIds(s)
    requires forall x :: x in s ==> x.id != a.id
    ensures UniqueIds([a] + s)
  {
  }

  /** An insert with the id NextId chooses keeps ids pairwise distinct. */
  lemma InsertKeepsUniqueIds(rows: seq<CardImage>, cardId: int, url: string)
    requires UniqueIds(rows)
    ensures UniqueIds(rows + [CardImage(NextId(rows), cardId, url)])
  {
  }

  /** Deleting rows keeps ids pairwise distinct. */
  lemma {:induction false} WithoutIdKeepsUniqueIds(rows: seq<CardImage>, id: int)
    requires UniqueIds(rows)
    ensures UniqueIds(WithoutId(rows, id))
  {
    if rows != [] {
      UniqueIdsTail(rows);
      WithoutIdKeepsUniqueIds(rows[1..], id);
      if rows[0].id != id {
        UniqueIdsCons(rows[0], WithoutId(rows[1..], id));
      }
    }
  }

  // ------------------------------------------------ lookups after updates

  /** With distinct ids, looking up a row's id finds exactly that row. */
  lemma LookupFindsRow(rows: seq<CardImage>, x: CardImage)
    requires UniqueIds(rows) && x in rows
    ensures CardImageById(rows, x.id) == Ok(x)
  {
  }

  /** Insert then lookup of the returned id yields the supplied card id and
      URL, and every earlier row is still found under its own id. */
  lemma InsertThenLookup(rows: seq<CardImage>, cardId: int, url: string)
    requires UniqueIds(rows)
    ensures var img := CardImage(NextId(rows), cardId, url);
            CardImageById(rows + [img], img.id) == Ok(img) &&
            forall x :: x in rows ==> CardImageById(rows + [img], x.id) == Ok(x)
  {
  }

  /** After a delete the id is not found, and every other row is still found
      under its own id. */
  lemma DeleteThenLookup(rows: seq<CardImage>, id: int)
    requires UniqueIds(rows)
    ensures CardImageById(WithoutId(rows, id), id) == NotFound
    ensures forall x :: x in rows && x.id != id ==> CardImageById(WithoutId(rows, id), x.id) == Ok(x)
  {
  }

  // -------------------------------------------------------- id reuse

  /** Inserting, deleting the new row and inserting again hands out the same
      id: the max+1 rule reuses the id of a deleted maximum. */
  lemma InsertDeleteInsertReusesId(rows: seq<CardImage>, cardId: int, url: string)
    ensures var n := NextId(rows);
            WithoutId(rows + [CardImage(n, cardId, url)], n) == rows &&
            NextId(WithoutId(rows + [CardImage(n, cardId, url)], n)) == n
  {
    var n := NextId(rows);
    var img := CardImage(n, cardId, url);
    WithoutIdAppend(rows, [img], n);
    assert [img][1..] == [];
    assert !HasId(rows, n);
  }

  /** Deleting an id below the maximum does not change the next id. */
  lemma DeleteBelowMaxKeepsNextId(rows: seq<CardImage>, id: int, y: CardImage)
    requires y in rows && y.id > id
    ensures NextId(WithoutId(rows, id)) == NextId(rows)
  {
  }

  /** Deleting the row with the largest id lets the next insert take that id
      or a smaller one: ids are not reserved once used. */
  lemma DeleteMaxAllowsReuse(rows: seq<CardImage>, x: CardImage)
    requires x in rows && x.id >= 0
    requires forall y :: y in rows ==> y.id <= x.id
    ensures NextId(WithoutId(rows, x.id)) <= x.id
  {
  }

  /** Exactly when a deleted maximum comes back: the next insert takes the
      deleted largest id m iff id m - 1 is still present, or m is 0 and no
      other row remains. What the table held before plays no part. */
  lemma DeleteMaxReusedIff(rows: seq<CardImage>, x: CardImage)
    requires x in rows
    requires forall y :: y in rows ==> y.id <= x.id
    ensures var w := WithoutId(rows, x.id);
            NextId(w) == x.id <==> HasId(rows, x.id - 1) || (w == [] && x.id == 0)
  {
  }

  // ---------------------------------------------------------- the table

  /** The "card-images" table behind a database session. */
  class CardImageTable {
    var rows: seq<CardImage>

    ghost predicate Valid()
      reads this
    {
      UniqueIds(rows)
    }

    constructor ()
      ensures Valid() && rows == []
    {
      rows := [];
    }

    /** get_card_image_by_id */
    method GetCardImageById(cid: int) returns (r: DbResult<CardImage>)
      ensures r == CardImageById(rows, cid)
    {
      r := First(FilterById(rows, cid));
    }

    /** get_all_card_images */
    method GetAllCardImages(cid: Option<int>) returns (r: seq<CardImage>)
      ensures r == AllCardImages(rows, cid)
    {
      var q := rows;
      if cid.Some? {
        q := FilterByCard(q, cid.value);
      }
      r := q;
    }

    /** get_any_card_image */
    method GetAnyCardImage(cid: Option<int>) returns (r: DbResult<CardImage>)
      ensures r == AnyCardImage(rows, cid)
    {
      var q := rows;
      if cid.Some? {
        q := FilterByCard(q, cid.value);
      }
      r := First(q);
    }

    /** insert_new_card_image: picks max+1 (0 when empty), appends the row
        and returns the id, which no earlier row carries. */
    method InsertNewCardImage(newImage: CardImageNew) returns (newId: int)
      requires Valid()
      modifies this
      ensures Valid()
      ensures newId == NextId(old(rows))
      ensures !HasId(old(rows), newId)
      ensures rows == old(rows) + [CardImage(newId, newImage.cardId, newImage.url)]
    {
      var maxId := MaxId(rows);
      newId := if maxId.None? then 0 else maxId.value + 1;
      InsertKeepsUniqueIds(rows, newImage.cardId, newImage.url);
      rows := rows + [CardImage(newId, newImage.cardId, newImage.url)];
    }

    /** delete_card_image: NotFound and no change when the id is absent,
        otherwise the row with that id is removed and nothing else. */
    method DeleteCardImage(cid: int) returns (r: DbResult<()>)
      requires Valid()
      modifies this
      ensures Valid()
      ensures r.NotFound? <==> !HasId(old(rows), cid)
      ensures r.NotFound? ==> rows == old(rows)
      ensures r.Ok? ==> rows == WithoutId(old(rows), cid)
    {
      var q := FilterById(rows, cid);
      if First(q).NotFound? {
        return NotFound;
      }
      assert q[0] in q;
      WithoutIdKeepsUniqueIds(rows, cid);
      rows := WithoutId(rows, cid);
      r := Ok(());
    }
  }

  /** The worked scenario of the index: two inserts into an empty table get
      ids 0 and 1; after deleting 0 only 1 is found. */
  method InsertDeleteScenario()
  {
    var db := new CardImageTable();
    var a := db.InsertNewCardImage(CardImageNew(5, "https://host/a"));
    assert a == 0;
    var b := db.InsertNewCardImage(CardImageNew(5, "https://host/b"));
    assert db.rows[0].id == 0;
    assert b == 1;
    var d := db.DeleteCardImage(0);
    assert HasId([CardImage(0, 5, "https://host/a"), CardImage(1, 5, "https://host/b")], 0);
    assert d.Ok?;
    var g0 := db.GetCardImageById(0);
    DeleteThenLookup([CardImage(0, 5, "https://host/a"), CardImage(1, 5, "https://host/b")], 0);
    assert g0 == NotFound;
    var g1 := db.GetCardImageById(1);
    assert g1 == Ok(CardImage(1, 5, "https://host/b"));
  }
}
