/**
 * `POST /api/products`: validate the body, check that the category
 * exists, create the product with its image rows.
 *
 * The route validates with a local copy of the create schema whose image
 * schema is narrower than the shared one: it reads only `url`, `altText`
 * and `order`, and accepts neither `null` for them nor any other key's
 * value (other keys are dropped).
 * The database is an input: the set of existing category ids, and which
 * of its two calls, if any, throws.
 */
module ProductsRoute {
  import opened Js
  import opened Schema
  import opened ProductValidation

  /** A validated image of the route's own schema. */
  datatype RouteImage = RouteImage(url: string, altText: Option<string>, order: Option<int>)

  /** One image row handed to the database. */
  datatype ImageRow = ImageRow(url: string, altText: string, order: int)

  /** The product handed to the database; `images` is `None` when no nested create is sent. */
  datatype ProductRow = ProductRow(
    name: string,
    description: Option<string>,
    price: real,
    stock: int,
    categoryId: string,
    material: Option<string>,
    color: Option<string>,
    dimensions: Option<string>,
    isActive: bool,
    images: Option<seq<ImageRow>>)

  /** Which database call throws, if any. */
  datatype DbFault = NoFault | LookupFails | CreateFails

  datatype Response =
    | ValidationFailed(fields: set<Key>)
    | CategoryNotFound(message: string)
    | Created(product: ProductRow)
    | ServerError

  function Status(r: Response): int {
    match r
    case ValidationFailed(_) => 400
    case CategoryNotFound(_) => 404
    case Created(_) => 201
    case ServerError => 500
  }

  /** The route's local `ProductImageSchema`. */
  function RouteImageSchema(f: Formats, j: Json): (r: Parsed<RouteImage>)
    ensures r.Accept? <==>
      && j.JObject?
      && Required(Member(j, "url"), x => Url(f, x)).Accept?
      && (Member(j, "altText").None? || Member(j, "altText").value.JString?)
      && (Member(j, "order").None? || PositiveInt(Member(j, "order").value).Accept?)
    ensures r.Accept? ==> Member(j, "url") == Some(JString(r.value.url)) && f.isUrl(r.value.url)
    ensures r.Accept? && r.value.order.Some? ==> r.value.order.value >= 1
    ensures r.Accept? ==> TextAt(Member(j, "altText"), r.value.altText) && IntAt(Member(j, "order"), r.value.order)
  {
    if !j.JObject? then Reject
    else
      var url := Required(Member(j, "url"), x => Url(f, x));
      var altText := Optional(Member(j, "altText"), AnyText);
      var order := Optional(Member(j, "order"), PositiveInt);
      if url.Accept? && altText.Accept? && order.Accept? then
        Accept(RouteImage(url.value, altText.value, order.value))
      else Reject
  }

  /** The route's local `CreateProductSchema`. */
  function RouteSchema(f: Formats, body: Json): (r: Validated<Key, ProductInput<RouteImage>>)
    ensures r.Valid? ==> forall i | 0 <= i < |r.data.images| ::
      f.isUrl(r.data.images[i].url) && (r.data.images[i].order.Some? ==> r.data.images[i].order.value >= 1)
  {
    CreateProductWith(f, body, x => RouteImageSchema(f, x))
  }

  function NotFoundMessage(categoryId: string): string {
    "La categoría con ID " + categoryId + " no fue encontrada."
  }

  /** An image row: a missing or empty `altText` becomes the product's name, a missing `order` becomes 1. */
  function ImageRowOf(name: string, img: RouteImage): (row: ImageRow)
    ensures row.url == img.url
    ensures TruthyText(img.altText) ==> row.altText == img.altText.value
    ensures !TruthyText(img.altText) ==> row.altText == name
    ensures img.order.Some? && img.order.value != 0 ==> row.order == img.order.value
    ensures img.order.None? ==> row.order == 1
  {
    ImageRow(img.url, OrText(img.altText, name), OrNumber(img.order, 1))
  }

  function ImageRows(name: string, images: seq<RouteImage>): (rows: seq<ImageRow>)
    ensures |rows| == |images|
    ensures forall i | 0 <= i < |images| :: rows[i] == ImageRowOf(name, images[i])
  {
    seq(|images|, i requires 0 <= i < |images| => ImageRowOf(name, images[i]))
  }

  /** The product row: the validated fields, and the image rows when there is at least one. */
  function Row(p: ProductInput<RouteImage>): (row: ProductRow)
    ensures row.images.None? <==> p.images == []
    ensures row.images.Some? ==> row.images.value == ImageRows(p.name, p.images)
    ensures row.name == p.name && row.price == p.price && row.stock == p.stock && row.categoryId == p.categoryId
    ensures row.isActive == p.isActive && row.description == p.description
    ensures row.material == p.material && row.color == p.color && row.dimensions == p.dimensions
  {
    ProductRow(p.name, p.description, p.price, p.stock, p.categoryId, p.material, p.color,
               p.dimensions, p.isActive, if |p.images| > 0 then Some(ImageRows(p.name, p.images)) else None)
  }

  /**
   * `POST`. `body` is `None` when the request body is not JSON, which
   * throws inside the handler.
   */
  function Post(f: Formats, body: Option<Json>, categories: set<string>, fault: DbFault): (r: Response)
    ensures body.None? ==> r == ServerError
    ensures r.ValidationFailed? <==> body.Some? && RouteSchema(f, body.value).Invalid?
    ensures r.ValidationFailed? ==> r.fields == RouteSchema(f, body.value).fields
    ensures r.CategoryNotFound? <==>
      && body.Some? && RouteSchema(f, body.value).Valid? && !fault.LookupFails?
      && RouteSchema(f, body.value).data.categoryId !in categories
    ensures r.Created? <==>
      && body.Some? && RouteSchema(f, body.value).Valid? && fault.NoFault?
      && RouteSchema(f, body.value).data.categoryId in categories
    ensures r.Created? ==> r.product == Row(RouteSchema(f, body.value).data)
  {
    match body
    case None => ServerError
    case Some(j) =>
      match RouteSchema(f, j)
      case Invalid(fields) => ValidationFailed(fields)
      case Valid(data) =>
        if fault.LookupFails? then ServerError
        else if data.categoryId !in categories then CategoryNotFound(NotFoundMessage(data.categoryId))
        else if fault.CreateFails? then ServerError
        else Created(Row(data))
  }

  /** Every response is one of the four statuses the route sends. */
  lemma StatusCodes(f: Formats, body: Option<Json>, categories: set<string>, fault: DbFault)
    ensures Status(Post(f, body, categories, fault)) in {400, 404, 201, 500}
    ensures Status(Post(f, body, categories, fault)) == 201 ==> Post(f, body, categories, fault).product.categoryId in categories
  {
  }

  /**
   * A created product's image rows: as many as the body's images, in the
   * same order, each with the supplied address, a non-empty `altText`
   * and an `order` of at least 1; no nested create when there are none.
   */
  lemma CreatedImageRows(f: Formats, body: Option<Json>, categories: set<string>, fault: DbFault)
    requires Post(f, body, categories, fault).Created?
    ensures var data := RouteSchema(f, body.value).data;
      var row := Post(f, body, categories, fault).product;
      && (row.images.None? <==> data.images == [])
      && (row.images.Some? ==>
        && |row.images.value| == |data.images|
        && forall i | 0 <= i < |data.images| ::
          && row.images.value[i].url == data.images[i].url
          && f.isUrl(row.images.value[i].url)
          && row.images.value[i].altText != ""
          && row.images.value[i].order >= 1
          && (TruthyText(data.images[i].altText) ==> row.images.value[i].altText == data.images[i].altText.value)
          && (data.images[i].order.Some? ==> row.images.value[i].order == data.images[i].order.value))
  {
    var data := RouteSchema(f, body.value).data;
    var row := Post(f, body, categories, fault).product;
    assert Utf16Length(data.name) >= 3;
    if row.images.Some? {
      forall i | 0 <= i < |data.images|
        ensures row.images.value[i].altText != "" && row.images.value[i].order >= 1
      {
        assert row.images.value[i] == ImageRowOf(data.name, data.images[i]);
      }
    }
  }

  /** A rejected body is answered before the database is consulted: the categories and the faults do not matter. */
  lemma ValidationFirst(f: Formats, body: Json, categories: set<string>, fault: DbFault,
                        categories': set<string>, fault': DbFault)
    requires RouteSchema(f, body).Invalid?
    ensures Post(f, Some(body), categories, fault) == Post(f, Some(body), categories', fault')
    ensures Status(Post(f, Some(body), categories, fault)) == 400
  {
  }
}
