/**
 * The product schemas shared by the admin pages and the API:
 * `ProductImageSchema`, `CreateProductSchema` and `UpdateProductSchema`.
 *
 * The create schema is written once, over the schema of one image, because
 * the products API route declares a local copy of it that differs only in
 * the image schema.
 */
module ProductValidation {
  import opened Js
  import opened Schema

  /** A validated image entry. */
  datatype ImageInput = ImageInput(
    id: Option<string>,
    url: string,
    altText: Nullish<string>,
    order: Nullish<int>,
    providerImageId: Nullish<string>)

  /** A validated create request, defaults filled in; `I` is the image type. */
  datatype ProductInput<I> = ProductInput(
    name: string,
    description: Option<string>,
    price: real,
    stock: int,
    categoryId: string,
    material: Option<string>,
    color: Option<string>,
    dimensions: Option<string>,
    isActive: bool,
    images: seq<I>)

  /** A validated update request: every field may be missing. */
  datatype ProductPatch = ProductPatch(
    name: Option<string>,
    description: Nullish<string>,
    price: Option<real>,
    stock: Option<int>,
    categoryId: Option<string>,
    material: Nullish<string>,
    color: Nullish<string>,
    dimensions: Nullish<string>,
    isActive: Option<bool>,
    images: Option<seq<ImageInput>>)

  // ---------------------------------------------------------------------
  // Field rules, stated on the raw value of a key
  // ---------------------------------------------------------------------

  /** A name: a string of at least 3 UTF-16 code units. */
  predicate NameOk(v: Option<Json>) {
    v.Some? && v.value.JString? && Utf16Length(v.value.s) >= 3
  }

  /** A price: a number greater than zero. */
  predicate PriceOk(v: Option<Json>) {
    v.Some? && v.value.JNumber? && v.value.n > 0.0
  }

  /** A stock, when given: a whole number that is not negative. */
  predicate StockOk(v: Option<Json>) {
    v.None? || (v.value.JNumber? && IsInteger(v.value.n) && v.value.n >= 0.0)
  }

  /** An optional string field of create: missing or a string. */
  predicate TextOrMissing(v: Option<Json>) {
    v.None? || v.value.JString?
  }

  /** `isActive`, when given: a boolean. */
  predicate BoolOrMissing(v: Option<Json>) {
    v.None? || v.value.JBool?
  }

  /** A category reference: a UUID string. */
  predicate CategoryIdOk(f: Formats, v: Option<Json>) {
    v.Some? && v.value.JString? && f.isUuid(v.value.s)
  }

  // ---------------------------------------------------------------------
  // Schemas
  // ---------------------------------------------------------------------

  /** The keys the product schemas declare. */
  datatype Key = Name | Description | Price | Stock | CategoryId | Material | Color | Dimensions | IsActive | Images

  const AllKeys: set<Key> := {Name, Description, Price, Stock, CategoryId, Material, Color, Dimensions, IsActive, Images}

  /** The position of a key in the schema declaration. */
  function Index(k: Key): (i: nat)
    ensures i < 10
  {
    match k
    case Name => 0
    case Description => 1
    case Price => 2
    case Stock => 3
    case CategoryId => 4
    case Material => 5
    case Color => 6
    case Dimensions => 7
    case IsActive => 8
    case Images => 9
  }

  /** The keys a failing product schema reports; `failed[Index(k)]` says whether key `k` failed. */
  function FailedKeys(failed: seq<bool>): (r: set<Key>)
    requires |failed| == 10
    ensures forall k :: k in r <==> failed[Index(k)]
    ensures r == {} <==> !(failed[0] || failed[1] || failed[2] || failed[3] || failed[4]
                           || failed[5] || failed[6] || failed[7] || failed[8] || failed[9])
  {
    var r := set k | k in AllKeys && failed[Index(k)];
    assert failed[0] ==> Name in r;
    assert failed[1] ==> Description in r;
    assert failed[2] ==> Price in r;
    assert failed[3] ==> Stock in r;
    assert failed[4] ==> CategoryId in r;
    assert failed[5] ==> Material in r;
    assert failed[6] ==> Color in r;
    assert failed[7] ==> Dimensions in r;
    assert failed[8] ==> IsActive in r;
    assert failed[9] ==> Images in r;
    r
  }

  /** An image entry the schema accepts: an object with a URL, an optional UUID `id`, and nullable others. */
  predicate ImageOk(f: Formats, j: Json) {
    var id := Member(j, "id");
    var url := Member(j, "url");
    var order := Member(j, "order");
    && j.JObject?
    && (id.None? || (id.value.JString? && f.isUuid(id.value.s)))
    && url.Some? && url.value.JString? && f.isUrl(url.value.s)
    && NullishTextOk(Member(j, "altText"))
    && (order.None? || order.value.JNull? || PositiveInt(order.value).Accept?)
    && NullishTextOk(Member(j, "providerImageId"))
  }

  /** `ProductImageSchema`. */
  function ImageSchema(f: Formats, j: Json): (r: Parsed<ImageInput>)
    ensures r.Accept? <==> ImageOk(f, j)
    ensures r.Accept? ==> Member(j, "url") == Some(JString(r.value.url)) && f.isUrl(r.value.url)
    ensures r.Accept? ==> TextAt(Member(j, "id"), r.value.id) && (r.value.id.None? || f.isUuid(r.value.id.value))
    ensures r.Accept? ==> NullishTextAt(Member(j, "altText"), r.value.altText)
    ensures r.Accept? ==> NullishIntAt(Member(j, "order"), r.value.order)
    ensures r.Accept? ==> r.value.order.Present? ==> r.value.order.value >= 1
    ensures r.Accept? ==> NullishTextAt(Member(j, "providerImageId"), r.value.providerImageId)
  {
    if !j.JObject? then Reject
    else
      var id := Optional(Member(j, "id"), x => Uuid(f, x));
      var url := Required(Member(j, "url"), x => Url(f, x));
      var altText := OptionalNullable(Member(j, "altText"), AnyText);
      var order := OptionalNullable(Member(j, "order"), PositiveInt);
      var providerImageId := OptionalNullable(Member(j, "providerImageId"), AnyText);
      if id.Accept? && url.Accept? && altText.Accept? && order.Accept? && providerImageId.Accept? then
        Accept(ImageInput(id.value, url.value, altText.value, order.value, providerImageId.value))
      else Reject
  }

  /** An image list, when given: an array of objects the image schema accepts. */
  predicate ImagesOk(f: Formats, v: Option<Json>) {
    v.None? || (v.value.JArray? && forall i | 0 <= i < |v.value.items| :: ImageOk(f, v.value.items[i]))
  }

  /** `z.array(image).optional().default([])`: a missing list is empty, a present one is checked element by element. */
  function ImageList<I>(v: Option<Json>, image: Json -> Parsed<I>): (r: Parsed<seq<I>>)
    ensures r.Accept? <==> v.None? || (v.value.JArray? && forall i | 0 <= i < |v.value.items| :: image(v.value.items[i]).Accept?)
    ensures v.None? ==> r == Accept([])
    ensures v.Some? && r.Accept? ==>
      && v.value.JArray? && |v.value.items| == |r.value|
      && forall i | 0 <= i < |r.value| :: image(v.value.items[i]) == Accept(r.value[i])
  {
    WithDefault(Optional(v, x => ArrayOf(x, image)), [])
  }

  /**
   * `CreateProductSchema` over an image schema: `name`, `price` and
   * `categoryId` are required; `stock` defaults to 0, `isActive` to true
   * and `images` to the empty list.
   */
  function CreateProductWith<I>(f: Formats, body: Json, image: Json -> Parsed<I>): (r: Validated<Key, ProductInput<I>>)
    ensures !body.JObject? ==> r == Invalid({})
    ensures body.JObject? && r.Invalid? ==> r.fields != {}
    ensures r.Valid? ==> Utf16Length(r.data.name) >= 3 && r.data.price > 0.0 && r.data.stock >= 0 && f.isUuid(r.data.categoryId)
    ensures r.Valid? && Member(body, "images").None? ==> r.data.images == []
    ensures r.Valid? && Member(body, "images").Some? ==>
      var items := Member(body, "images").value;
      && items.JArray? && |items.items| == |r.data.images|
      && forall i | 0 <= i < |r.data.images| :: image(items.items[i]) == Accept(r.data.images[i])
  {
    if !body.JObject? then Invalid({})
    else
      var name := Required(Member(body, "name"), x => Text(x, 3, None));
      var description := Optional(Member(body, "description"), AnyText);
      var price := Required(Member(body, "price"), Positive);
      var stock := WithDefault(Optional(Member(body, "stock"), Count), 0);
      var categoryId := Required(Member(body, "categoryId"), x => Uuid(f, x));
      var material := Optional(Member(body, "material"), AnyText);
      var color := Optional(Member(body, "color"), AnyText);
      var dimensions := Optional(Member(body, "dimensions"), AnyText);
      var isActive := WithDefault(Optional(Member(body, "isActive"), Bool), true);
      var images := ImageList(Member(body, "images"), image);
      if && name.Accept? && description.Accept? && price.Accept? && stock.Accept?
         && categoryId.Accept? && material.Accept? && color.Accept? && dimensions.Accept?
         && isActive.Accept? && images.Accept?
      then
        Valid(ProductInput(name.value, description.value, price.value, stock.value, categoryId.value,
                           material.value, color.value, dimensions.value, isActive.value, images.value))
      else
        Invalid(FailedKeys([name.Reject?, description.Reject?, price.Reject?, stock.Reject?, categoryId.Reject?,
                            material.Reject?, color.Reject?, dimensions.Reject?, isActive.Reject?, images.Reject?]))
  }

  /** `CreateProductSchema` of the validation library. */
  function CreateProduct(f: Formats, body: Json): (r: Validated<Key, ProductInput<ImageInput>>)
    ensures r.Valid? ==> forall i | 0 <= i < |r.data.images| :: f.isUrl(r.data.images[i].url)
  {
    CreateProductWith(f, body, x => ImageSchema(f, x))
  }

  /** `UpdateProductSchema`: the same rules, every field optional, no defaults. */
  function UpdateProduct(f: Formats, body: Json): (r: Validated<Key, ProductPatch>)
    ensures !body.JObject? ==> r == Invalid({})
    ensures body.JObject? && r.Invalid? ==> r.fields != {}
    ensures r.Valid? && r.data.name.Some? ==> Utf16Length(r.data.name.value) >= 3
    ensures r.Valid? && r.data.price.Some? ==> r.data.price.value > 0.0
    ensures r.Valid? && r.data.stock.Some? ==> r.data.stock.value >= 0
    ensures r.Valid? && r.data.categoryId.Some? ==> f.isUuid(r.data.categoryId.value)
  {
    if !body.JObject? then Invalid({})
    else
      var name := Optional(Member(body, "name"), x => Text(x, 3, None));
      var description := OptionalNullable(Member(body, "description"), AnyText);
      var price := Optional(Member(body, "price"), Positive);
      var stock := Optional(Member(body, "stock"), Count);
      var categoryId := Optional(Member(body, "categoryId"), x => Uuid(f, x));
      var material := OptionalNullable(Member(body, "material"), AnyText);
      var color := OptionalNullable(Member(body, "color"), AnyText);
      var dimensions := OptionalNullable(Member(body, "dimensions"), AnyText);
      var isActive := Optional(Member(body, "isActive"), Bool);
      var images := Optional(Member(body, "images"), x => ArrayOf(x, y => ImageSchema(f, y)));
      if && name.Accept? && description.Accept? && price.Accept? && stock.Accept?
         && categoryId.Accept? && material.Accept? && color.Accept? && dimensions.Accept?
         && isActive.Accept? && images.Accept?
      then
        Valid(ProductPatch(name.value, description.value, price.value, stock.value, categoryId.value,
                           material.value, color.value, dimensions.value, isActive.value, images.value))
      else
        Invalid(FailedKeys([name.Reject?, description.Reject?, price.Reject?, stock.Reject?, categoryId.Reject?,
                            material.Reject?, color.Reject?, dimensions.Reject?, isActive.Reject?, images.Reject?]))
  }

  // ---------------------------------------------------------------------
  // Which bodies are accepted
  // ---------------------------------------------------------------------

  /** A body create accepts: every one of the ten keys meets its rule. */
  predicate CreateOk(f: Formats, body: Json) {
    && NameOk(Member(body, "name"))
    && TextOrMissing(Member(body, "description"))
    && PriceOk(Member(body, "price"))
    && StockOk(Member(body, "stock"))
    && CategoryIdOk(f, Member(body, "categoryId"))
    && TextOrMissing(Member(body, "material"))
    && TextOrMissing(Member(body, "color"))
    && TextOrMissing(Member(body, "dimensions"))
    && BoolOrMissing(Member(body, "isActive"))
    && ImagesOk(f, Member(body, "images"))
  }

  /** A body update accepts: every key is missing or meets its rule, and the four nullable strings may be `null`. */
  predicate UpdateOk(f: Formats, body: Json) {
    && (Member(body, "name").None? || NameOk(Member(body, "name")))
    && NullishTextOk(Member(body, "description"))
    && (Member(body, "price").None? || PriceOk(Member(body, "price")))
    && StockOk(Member(body, "stock"))
    && (Member(body, "categoryId").None? || CategoryIdOk(f, Member(body, "categoryId")))
    && NullishTextOk(Member(body, "material"))
    && NullishTextOk(Member(body, "color"))
    && NullishTextOk(Member(body, "dimensions"))
    && BoolOrMissing(Member(body, "isActive"))
    && ImagesOk(f, Member(body, "images"))
  }

  /** Create accepts an object exactly when every key meets its rule. */
  lemma CreateAccepts(f: Formats, body: Json)
    requires body.JObject?
    ensures CreateProduct(f, body).Valid? <==> CreateOk(f, body)
  {
    if CreateOk(f, body) {
      CreateAcceptsOk(f, body);
    }
    if CreateProduct(f, body).Valid? {
      CreateValidOk(f, body);
    }
  }

  lemma CreateAcceptsOk(f: Formats, body: Json)
    requires body.JObject? && CreateOk(f, body)
    ensures CreateProduct(f, body).Valid?
  {
  }

  lemma CreateValidOk(f: Formats, body: Json)
    requires body.JObject? && CreateProduct(f, body).Valid?
    ensures CreateOk(f, body)
  {
    CreateNameRule(f, body);
    CreatePriceRule(f, body);
    CreateStockRule(f, body);
    CreateCategoryIdRule(f, body);
    CreateTextRules(f, body);
    CreateIsActiveRule(f, body);
    CreateImagesRule(f, body);
  }

  /** Update accepts an object exactly when every key is missing, `null` where allowed, or meets its rule. */
  lemma UpdateAccepts(f: Formats, body: Json)
    requires body.JObject?
    ensures UpdateProduct(f, body).Valid? <==> UpdateOk(f, body)
  {
    if UpdateOk(f, body) {
      UpdateAcceptsOk(f, body);
    }
    if UpdateProduct(f, body).Valid? {
      UpdateValidOk(f, body);
    }
  }

  lemma UpdateAcceptsOk(f: Formats, body: Json)
    requires body.JObject? && UpdateOk(f, body)
    ensures UpdateProduct(f, body).Valid?
  {
    UpdateNameRule(f, body);
    UpdatePriceRule(f, body);
    UpdateStockRule(f, body);
    UpdateCategoryIdRule(f, body);
    UpdateTextRules(f, body);
    UpdateIsActiveRule(f, body);
    UpdateImagesRule(f, body);
  }

  lemma UpdateValidOk(f: Formats, body: Json)
    requires body.JObject? && UpdateProduct(f, body).Valid?
    ensures UpdateOk(f, body)
  {
    UpdateNameRule(f, body);
    UpdatePriceRule(f, body);
    UpdateStockRule(f, body);
    UpdateCategoryIdRule(f, body);
    UpdateTextRules(f, body);
    UpdateIsActiveRule(f, body);
    UpdateImagesRule(f, body);
  }

  /** Create fails on an optional string key exactly when it is present and not a string. */
  lemma CreateTextRules(f: Formats, body: Json)
    requires body.JObject?
    ensures InvalidAt(CreateProduct(f, body), Description) <==> !TextOrMissing(Member(body, "description"))
    ensures InvalidAt(CreateProduct(f, body), Material) <==> !TextOrMissing(Member(body, "material"))
    ensures InvalidAt(CreateProduct(f, body), Color) <==> !TextOrMissing(Member(body, "color"))
    ensures InvalidAt(CreateProduct(f, body), Dimensions) <==> !TextOrMissing(Member(body, "dimensions"))
  {
    CreateDescriptionRule(f, body);
    CreateMaterialRule(f, body);
    CreateColorRule(f, body);
    CreateDimensionsRule(f, body);
  }

  /** Update fails on a nullable string key exactly when it is present, not `null` and not a string. */
  lemma UpdateTextRules(f: Formats, body: Json)
    requires body.JObject?
    ensures InvalidAt(UpdateProduct(f, body), Description) <==> !NullishTextOk(Member(body, "description"))
    ensures InvalidAt(UpdateProduct(f, body), Material) <==> !NullishTextOk(Member(body, "material"))
    ensures InvalidAt(UpdateProduct(f, body), Color) <==> !NullishTextOk(Member(body, "color"))
    ensures InvalidAt(UpdateProduct(f, body), Dimensions) <==> !NullishTextOk(Member(body, "dimensions"))
  {
    UpdateDescriptionRule(f, body);
    UpdateMaterialRule(f, body);
    UpdateColorRule(f, body);
    UpdateDimensionsRule(f, body);
  }

  lemma CreateDescriptionRule(f: Formats, body: Json)
    requires body.JObject?
    ensures InvalidAt(CreateProduct(f, body), Description) <==> !TextOrMissing(Member(body, "description"))
  {
  }

  lemma UpdateDescriptionRule(f: Formats, body: Json)
    requires body.JObject?
    ensures InvalidAt(UpdateProduct(f, body), Description) <==> !NullishTextOk(Member(body, "description"))
  {
  }

  lemma CreateMaterialRule(f: Formats, body: Json)
    requires body.JObject?
    ensures InvalidAt(CreateProduct(f, body), Material) <==> !TextOrMissing(Member(body, "material"))
  {
  }

  lemma UpdateMaterialRule(f: Formats, body: Json)
    requires body.JObject?
    ensures InvalidAt(UpdateProduct(f, body), Material) <==> !NullishTextOk(Member(body, "material"))
  {
  }

  lemma CreateColorRule(f: Formats, body: Json)
    requires body.JObject?
    ensures InvalidAt(CreateProduct(f, body), Color) <==> !TextOrMissing(Member(body, "color"))
  {
  }

  lemma UpdateColorRule(f: Formats, body: Json)
    requires body.JObject?
    ensures InvalidAt(UpdateProduct(f, body), Color) <==> !NullishTextOk(Member(body, "color"))
  {
  }

  lemma CreateDimensionsRule(f: Formats, body: Json)
    requires body.JObject?
    ensures InvalidAt(CreateProduct(f, body), Dimensions) <==> !TextOrMissing(Member(body, "dimensions"))
  {
  }

  lemma UpdateDimensionsRule(f: Formats, body: Json)
    requires body.JObject?
    ensures InvalidAt(UpdateProduct(f, body), Dimensions) <==> !NullishTextOk(Member(body, "dimensions"))
  {
  }

  lemma CreateIsActiveRule(f: Formats, body: Json)
    requires body.JObject?
    ensures InvalidAt(CreateProduct(f, body), IsActive) <==> !BoolOrMissing(Member(body, "isActive"))
  {
  }

  lemma UpdateIsActiveRule(f: Formats, body: Json)
    requires body.JObject?
    ensures InvalidAt(UpdateProduct(f, body), IsActive) <==> !BoolOrMissing(Member(body, "isActive"))
  {
  }

  /** Both schemas fail on `images` exactly when it is present and not an array of acceptable images. */
  lemma CreateImagesRule(f: Formats, body: Json)
    requires body.JObject?
    ensures InvalidAt(CreateProduct(f, body), Images) <==> !ImagesOk(f, Member(body, "images"))
  {
  }

  lemma UpdateImagesRule(f: Formats, body: Json)
    requires body.JObject?
    ensures InvalidAt(UpdateProduct(f, body), Images) <==> !ImagesOk(f, Member(body, "images"))
  {
  }

  // ---------------------------------------------------------------------
  // Validated values against the body
  // ---------------------------------------------------------------------

  /**
   * Create returns the body's own values: the required fields exactly as
   * sent, the optional strings missing exactly when the body omits them.
   */
  lemma CreateKeepsValues<I>(f: Formats, body: Json, image: Json -> Parsed<I>)
    requires CreateProductWith(f, body, image).Valid?
    ensures var p := CreateProductWith(f, body, image).data;
      && Member(body, "name") == Some(JString(p.name))
      && Member(body, "price") == Some(JNumber(p.price))
      && Member(body, "categoryId") == Some(JString(p.categoryId))
    ensures var p := CreateProductWith(f, body, image).data;
      && TextAt(Member(body, "description"), p.description)
      && TextAt(Member(body, "material"), p.material)
      && TextAt(Member(body, "color"), p.color)
      && TextAt(Member(body, "dimensions"), p.dimensions)
  {
  }

  /** Create takes `stock` and `isActive` from the body when sent, and fills in 0 and true otherwise. */
  lemma CreateFillsDefaults<I>(f: Formats, body: Json, image: Json -> Parsed<I>)
    requires CreateProductWith(f, body, image).Valid?
    ensures var p := CreateProductWith(f, body, image).data;
      if Member(body, "stock").None? then p.stock == 0
      else Member(body, "stock") == Some(JNumber(p.stock as real))
    ensures var p := CreateProductWith(f, body, image).data;
      if Member(body, "isActive").None? then p.isActive
      else Member(body, "isActive") == Some(JBool(p.isActive))
  {
  }

  /** Update returns the body's own values for the fields that cannot be `null`, and leaves out the ones it omits. */
  lemma UpdateKeepsValues(f: Formats, body: Json)
    requires UpdateProduct(f, body).Valid?
    ensures var p := UpdateProduct(f, body).data;
      && TextAt(Member(body, "name"), p.name)
      && NumberAt(Member(body, "price"), p.price)
      && IntAt(Member(body, "stock"), p.stock)
      && TextAt(Member(body, "categoryId"), p.categoryId)
      && BoolAt(Member(body, "isActive"), p.isActive)
  {
  }

  /** Update tells a missing nullable string from an explicit `null` from a string, as the body sent it. */
  lemma UpdateKeepsNullables(f: Formats, body: Json)
    requires UpdateProduct(f, body).Valid?
    ensures var p := UpdateProduct(f, body).data;
      && NullishTextAt(Member(body, "description"), p.description)
      && NullishTextAt(Member(body, "material"), p.material)
      && NullishTextAt(Member(body, "color"), p.color)
      && NullishTextAt(Member(body, "dimensions"), p.dimensions)
  {
  }

  /** Update's image list is missing exactly when the body omits it, and otherwise holds each entry as the image schema validated it. */
  lemma UpdateKeepsImages(f: Formats, body: Json)
    requires UpdateProduct(f, body).Valid?
    ensures var p := UpdateProduct(f, body).data;
      p.images.None? <==> Member(body, "images").None?
    ensures var p := UpdateProduct(f, body).data;
      p.images.Some? ==>
        var items := Member(body, "images").value;
        && items.JArray? && |items.items| == |p.images.value|
        && forall i | 0 <= i < |p.images.value| :: ImageSchema(f, items.items[i]) == Accept(p.images.value[i])
  {
  }

  // ---------------------------------------------------------------------
  // Properties
  // ---------------------------------------------------------------------

  /** Create demands a name of at least 3 UTF-16 code units; update checks it only when present. */
  lemma NameRule(f: Formats, body: Json)
    requires body.JObject?
    ensures InvalidAt(CreateProduct(f, body), Name) <==> !NameOk(Member(body, "name"))
    ensures InvalidAt(UpdateProduct(f, body), Name) <==> Member(body, "name").Some? && !NameOk(Member(body, "name"))
  {
    CreateNameRule(f, body);
    UpdateNameRule(f, body);
  }

  lemma CreateNameRule(f: Formats, body: Json)
    requires body.JObject?
    ensures InvalidAt(CreateProduct(f, body), Name) <==> !NameOk(Member(body, "name"))
  {
  }

  lemma UpdateNameRule(f: Formats, body: Json)
    requires body.JObject?
    ensures InvalidAt(UpdateProduct(f, body), Name) <==> Member(body, "name").Some? && !NameOk(Member(body, "name"))
  {
  }

  /** A character outside the Basic Multilingual Plane counts twice: two characters can make a valid name. */
  lemma SurrogatePairName(c: char, d: char)
    requires c as int >= 0x1_0000 && d as int < 0x1_0000
    ensures NameOk(Some(JString([c, d])))
  {
    assert [c, d][1..] == [d];
    assert [d][1..] == [];
  }

  /** Create demands a positive price; update checks it only when present. */
  lemma PriceRule(f: Formats, body: Json)
    requires body.JObject?
    ensures InvalidAt(CreateProduct(f, body), Price) <==> !PriceOk(Member(body, "price"))
    ensures InvalidAt(UpdateProduct(f, body), Price) <==> Member(body, "price").Some? && !PriceOk(Member(body, "price"))
  {
    CreatePriceRule(f, body);
    UpdatePriceRule(f, body);
  }

  lemma CreatePriceRule(f: Formats, body: Json)
    requires body.JObject?
    ensures InvalidAt(CreateProduct(f, body), Price) <==> !PriceOk(Member(body, "price"))
  {
  }

  lemma UpdatePriceRule(f: Formats, body: Json)
    requires body.JObject?
    ensures InvalidAt(UpdateProduct(f, body), Price) <==> Member(body, "price").Some? && !PriceOk(Member(body, "price"))
  {
  }

  /**
   * Stock must be a whole number that is not negative. When missing, create
   * fills in 0 and update leaves it missing.
   */
  lemma StockRule(f: Formats, body: Json)
    requires body.JObject?
    ensures InvalidAt(CreateProduct(f, body), Stock) <==> !StockOk(Member(body, "stock"))
    ensures InvalidAt(UpdateProduct(f, body), Stock) <==> !StockOk(Member(body, "stock"))
    ensures CreateProduct(f, body).Valid? && Member(body, "stock").None? ==> CreateProduct(f, body).data.stock == 0
    ensures UpdateProduct(f, body).Valid? && Member(body, "stock").None? ==> UpdateProduct(f, body).data.stock.None?
  {
    CreateStockRule(f, body);
    UpdateStockRule(f, body);
  }

  lemma CreateStockRule(f: Formats, body: Json)
    requires body.JObject?
    ensures InvalidAt(CreateProduct(f, body), Stock) <==> !StockOk(Member(body, "stock"))
    ensures CreateProduct(f, body).Valid? && Member(body, "stock").None? ==> CreateProduct(f, body).data.stock == 0
  {
  }

  lemma UpdateStockRule(f: Formats, body: Json)
    requires body.JObject?
    ensures InvalidAt(UpdateProduct(f, body), Stock) <==> !StockOk(Member(body, "stock"))
    ensures UpdateProduct(f, body).Valid? && Member(body, "stock").None? ==> UpdateProduct(f, body).data.stock.None?
  {
  }

  /** Create demands a UUID category reference; update checks it only when present. */
  lemma CategoryIdRule(f: Formats, body: Json)
    requires body.JObject?
    ensures InvalidAt(CreateProduct(f, body), CategoryId) <==> !CategoryIdOk(f, Member(body, "categoryId"))
    ensures InvalidAt(UpdateProduct(f, body), CategoryId)
        <==> Member(body, "categoryId").Some? && !CategoryIdOk(f, Member(body, "categoryId"))
  {
    CreateCategoryIdRule(f, body);
    UpdateCategoryIdRule(f, body);
  }

  lemma CreateCategoryIdRule(f: Formats, body: Json)
    requires body.JObject?
    ensures InvalidAt(CreateProduct(f, body), CategoryId) <==> !CategoryIdOk(f, Member(body, "categoryId"))
  {
  }

  lemma UpdateCategoryIdRule(f: Formats, body: Json)
    requires body.JObject?
    ensures InvalidAt(UpdateProduct(f, body), CategoryId)
        <==> Member(body, "categoryId").Some? && !CategoryIdOk(f, Member(body, "categoryId"))
  {
  }

  /**
   * Create fills in `isActive = true` and `images = []`; update fills in
   * nothing, so a missing `images` stays missing.
   */
  lemma DefaultsRule(f: Formats, body: Json)
    requires body.JObject?
    ensures CreateProduct(f, body).Valid? && Member(body, "isActive").None? ==> CreateProduct(f, body).data.isActive
    ensures CreateProduct(f, body).Valid? && Member(body, "images").None? ==> CreateProduct(f, body).data.images == []
    ensures UpdateProduct(f, body).Valid? && Member(body, "isActive").None? ==> UpdateProduct(f, body).data.isActive.None?
    ensures UpdateProduct(f, body).Valid? && Member(body, "images").None? ==> UpdateProduct(f, body).data.images.None?
  {
    CreateDefaultsRule(f, body);
    UpdateDefaultsRule(f, body);
  }

  lemma CreateDefaultsRule(f: Formats, body: Json)
    requires body.JObject?
    ensures CreateProduct(f, body).Valid? && Member(body, "isActive").None? ==> CreateProduct(f, body).data.isActive
    ensures CreateProduct(f, body).Valid? && Member(body, "images").None? ==> CreateProduct(f, body).data.images == []
  {
  }

  lemma UpdateDefaultsRule(f: Formats, body: Json)
    requires body.JObject?
    ensures UpdateProduct(f, body).Valid? && Member(body, "isActive").None? ==> UpdateProduct(f, body).data.isActive.None?
    ensures UpdateProduct(f, body).Valid? && Member(body, "images").None? ==> UpdateProduct(f, body).data.images.None?
  {
  }

  /**
   * An image entry needs a valid URL; a present, non-null `order` must be a
   * positive whole number; `altText`, `order` and `providerImageId` may be
   * `null`.
   */
  lemma ImageRule(f: Formats, url: string, rest: map<string, Json>)
    requires "url" !in rest
    ensures var j := JObject(rest[ "url" := JString(url) ]);
      && (ImageSchema(f, j).Accept? ==> f.isUrl(url))
      && ((&& f.isUrl(url) && rest.Keys <= {"altText", "order", "providerImageId"}
           && (forall k | k in rest :: rest[k] == JNull)) ==> ImageSchema(f, j).Accept?)
  {
    var j := JObject(rest[ "url" := JString(url) ]);
    if f.isUrl(url) && rest.Keys <= {"altText", "order", "providerImageId"} && (forall k | k in rest :: rest[k] == JNull) {
      assert Member(j, "id").None?;
      assert Member(j, "url") == Some(JString(url));
      assert Member(j, "altText").None? || Member(j, "altText") == Some(JNull);
      assert Member(j, "order").None? || Member(j, "order") == Some(JNull);
      assert Member(j, "providerImageId").None? || Member(j, "providerImageId") == Some(JNull);
    }
  }

  /** The empty object fails create, naming the three required fields, and passes update with nothing set. */
  lemma EmptyObjectRule(f: Formats)
    ensures CreateProduct(f, JObject(map[])) == Invalid({Name, Price, CategoryId})
    ensures UpdateProduct(f, JObject(map[]))
         == Valid(ProductPatch(None, Absent, None, None, None, Absent, Absent, Absent, None, None))
  {
    var body := JObject(map[]);
    assert Member(body, "name").None? && Member(body, "price").None? && Member(body, "categoryId").None?;
    assert Member(body, "description").None? && Member(body, "stock").None? && Member(body, "material").None?;
    assert Member(body, "color").None? && Member(body, "dimensions").None?;
    assert Member(body, "isActive").None? && Member(body, "images").None?;
  }

  /**
   * Whatever create accepts, update accepts too, with the same values for
   * every field the body sets.
   */
  lemma CreateImpliesUpdate(f: Formats, body: Json)
    requires CreateProduct(f, body).Valid?
    ensures UpdateProduct(f, body).Valid?
    ensures var c := CreateProduct(f, body).data; var u := UpdateProduct(f, body).data;
      && u.name == Some(c.name) && u.price == Some(c.price) && u.categoryId == Some(c.categoryId)
      && (Member(body, "stock").Some? ==> u.stock == Some(c.stock))
      && (Member(body, "images").Some? ==> u.images == Some(c.images))
  {
    UpdateAcceptsCreated(f, body);
    UpdateKeepsCreated(f, body);
  }

  lemma UpdateAcceptsCreated(f: Formats, body: Json)
    requires CreateProduct(f, body).Valid?
    ensures UpdateProduct(f, body).Valid?
  {
    assert body.JObject?;
    var d := Member(body, "description");
    assert d.None? || d.value.JString?;
    var m := Member(body, "material");
    assert m.None? || m.value.JString?;
    var co := Member(body, "color");
    assert co.None? || co.value.JString?;
    var di := Member(body, "dimensions");
    assert di.None? || di.value.JString?;
  }

  lemma UpdateKeepsCreated(f: Formats, body: Json)
    requires CreateProduct(f, body).Valid? && UpdateProduct(f, body).Valid?
    ensures var c := CreateProduct(f, body).data; var u := UpdateProduct(f, body).data;
      && u.name == Some(c.name) && u.price == Some(c.price) && u.categoryId == Some(c.categoryId)
      && (Member(body, "stock").Some? ==> u.stock == Some(c.stock))
      && (Member(body, "images").Some? ==> u.images == Some(c.images))
  {
  }
}
