# Storefront core: slugs, the admin image list, validation and create routes

A Dafny model of the sequential logic of a small furniture storefront
(Next.js, Prisma, zod, ImageKit). It covers four parts.

- **String helpers** (`StringUtils`, `lib/utils/string.ts`):
  - `slugify` is modelled as its five steps: lower-case, trim, turn white-space runs into `-`, drop characters outside `[A-Za-z0-9_-]`, collapse hyphen runs.
  - `capitalize` and `truncate` are modelled too.
- **The admin product form's image list** (`ProductForm`, `components/admin/ProductForm.tsx`):
  - The list is a state machine over a `seq<FormImage>`.
  - Each event is a pure function from the old list to the new one:
    - loading a product;
    - appending placeholders for selected files;
    - an upload succeeding or failing;
    - editing a field;
    - removing an entry.
  - `handleSubmit`'s projection and the submit button's disabled state are functions of the list.
  - What the upload and delete endpoints answer is an input. The upload answer is a function from file to response.
- **Validation schemas** (`Schema`, `ProductValidation`, `CategoryValidation`):
  - The zod object schemas are modelled as functions from a parsed JSON body to `Valid(data)` with defaults filled in, or to `Invalid(keys)` naming every failing key.
  - The `url` and `uuid` format checks are parameters, the `Formats` record.
- **Create routes** (`ProductsRoute`, `CategoriesRoute`):
  - `POST /api/products` and `POST /api/categories` are functions from the parsed body and the database's behaviour to the response and the row they would create.
  - The database's behaviour is the set of existing category ids and which call throws.

`Js` holds what these parts share:
- JSON values;
- `undefined` as a missing `Option`;
- the truthiness rules behind `||` and `!x`.

The products create route has no conflict branch: every thrown error, a unique-constraint violation included, is answered with 500 (`app/api/products/route.ts:152-162`).

## Model

| member | source | states |
|---|---|---|
| Js.OrDefaults | app/api/products/route.ts:139-140 | `a \|\| b` is `a` or `b`; with a truthy `b` the result is truthy; with a truthy `a` the fallback is never used |
| Js.Utf16Length | lib/validations/product.ts:20-22 | the length zod measures lies between the character count and twice it, and is 0 exactly for the empty string |
| Js.Utf16LengthBmp | lib/validations/product.ts:20-22 | for a string of Basic Multilingual Plane characters, the length zod measures is the character count |
| StringUtils.LowerChar | lib/utils/string.ts:8 | the lower case of a character: never an ASCII capital, white space exactly when the input is, an ASCII capital shifted by 32, a slug character unchanged |
| StringUtils.ToLower | lib/utils/string.ts:8 | a lower-cased string holds no ASCII capital |
| StringUtils.ToLowerAppend | lib/utils/string.ts:8 | lower-casing works character by character: it distributes over concatenation |
| StringUtils.ToLowerAllSpace | lib/utils/string.ts:8-9 | a string is all white space exactly when its lower case is |
| StringUtils.ToLowerOfSlugChars | lib/utils/string.ts:8 | a string of slug characters is its own lower case |
| StringUtils.TrimStart | lib/utils/string.ts:9 | the result is a suffix of the input, the dropped prefix is all white space, and the result does not start with white space |
| StringUtils.TrimEnd | lib/utils/string.ts:9 | the result is a prefix of the input, the dropped suffix is all white space, and the result does not end with white space |
| StringUtils.TrimSpec | lib/utils/string.ts:9 | `trim` returns a slice `s[i..j]` whose cut-off ends are all white space and which neither starts nor ends with white space |
| StringUtils.TrimNoSpace | lib/utils/string.ts:9 | a string without white space is its own trim |
| StringUtils.TrimEmptyIffAllSpace | lib/utils/string.ts:9 | the trimmed string is empty exactly when the input is all white space |
| StringUtils.TrimIdempotent | lib/utils/string.ts:9 | trimming twice is trimming once |
| StringUtils.ToLowerTrim | lib/utils/string.ts:8-9 | lower-casing and trimming commute |
| StringUtils.ReplaceSpaceRuns | lib/utils/string.ts:10 | the result holds no white space, and a string without white space is unchanged |
| StringUtils.ReplaceSpaceRun | lib/utils/string.ts:10 | a maximal run of white space at the front becomes exactly one `-`, and what follows the run is processed on its own |
| StringUtils.ReplaceSpaceRunAfterWord | lib/utils/string.ts:10 | a word, then a maximal white-space run, then the rest: the word is kept, the run becomes exactly one `-` |
| StringUtils.ReplaceSingleSpace | lib/utils/string.ts:10 | one blank between two words becomes one hyphen |
| StringUtils.ReplaceSpaceRunsAfterWord | lib/utils/string.ts:10 | a prefix without white space passes through unchanged |
| StringUtils.DropNonWord | lib/utils/string.ts:11 | the result holds only `[A-Za-z0-9_-]`, and a string of those characters is unchanged |
| StringUtils.DropNonWordChar | lib/utils/string.ts:11 | a single character is kept exactly when it is in `[A-Za-z0-9_-]` and dropped otherwise |
| StringUtils.DropNonWordAppend | lib/utils/string.ts:11 | dropping characters distributes over concatenation |
| StringUtils.CollapseHyphens | lib/utils/string.ts:12 | the result never holds `--`, is empty exactly when the input is, and starts with the input's first character; what a run becomes is stated by the three run lemmas below |
| StringUtils.CollapseHyphenRun | lib/utils/string.ts:12 | a maximal run of hyphens at the front, of any length, becomes exactly one `-`, and the rest is collapsed on its own |
| StringUtils.CollapseHyphensAfterWord | lib/utils/string.ts:12 | a prefix without hyphens passes through unchanged |
| StringUtils.CollapseHyphenRunAfterWord | lib/utils/string.ts:12 | a word, then a maximal hyphen run, then the rest: the word is kept and the run becomes exactly one `-`, so `a--b` gives `a-b` |
| StringUtils.CollapseHyphensKeepsOthers | lib/utils/string.ts:12 | input and output agree once every hyphen is removed: collapsing touches only hyphens |
| StringUtils.CollapseHyphensChars | lib/utils/string.ts:12 | collapsing adds no character outside the slug alphabet |
| StringUtils.CollapseHyphensFixpoint | lib/utils/string.ts:12 | a string without `--` is unchanged |
| StringUtils.Slugify | lib/utils/string.ts:5-13 | every slug is well formed: characters from `[a-z0-9_-]` and no `--` |
| StringUtils.SlugifyCharset | lib/utils/string.ts:8-11 | every character of the output is in `[a-z0-9_-]` |
| StringUtils.SlugifyNoDoubleHyphen | lib/utils/string.ts:12 | the output never holds two hyphens in a row |
| StringUtils.SlugIsFixpoint | lib/utils/string.ts:5-13 | a well-formed slug is its own slug |
| StringUtils.SlugifyIdempotent | lib/utils/string.ts:5-13 | `slugify(slugify(s)) == slugify(s)` |
| StringUtils.SlugifyOfTrim | lib/utils/string.ts:5-13 | trimming before slugifying changes nothing |
| StringUtils.SlugifyExample | lib/utils/string.ts:3 | `slugify("Hello World!") == "hello-world"` |
| StringUtils.Capitalize | lib/utils/string.ts:19-21 | same length, empty stays empty, the rest is unchanged; a small first letter becomes its capital (code point minus 32), any other first character is kept |
| StringUtils.CapitalizeIdempotent | lib/utils/string.ts:19-21 | capitalizing twice is capitalizing once |
| StringUtils.CapitalizeExample | lib/utils/string.ts:17 | `capitalize("hello world") == "Hello world"` |
| StringUtils.SliceEnd | lib/utils/string.ts:29 | the end index of `String.prototype.slice` is within the string and equals an in-range argument |
| StringUtils.Truncate | lib/utils/string.ts:27-30 | a text that fits is returned as is; for a limit `n` from 0 up to the text's length (exclusive) the result is `t[..n] + "..."` of length `n + 3`; a negative limit counts from the end |
| StringUtils.TruncateShape | lib/utils/string.ts:27-30 | the result is the text itself or a prefix of it followed by `...`, and for a non-negative limit it is no longer than the larger of the text's length and `n + 3` |
| StringUtils.TruncateIdempotent | lib/utils/string.ts:27-30 | with a non-negative limit, truncating twice is truncating once |
| StringUtils.TruncateExample | lib/utils/string.ts:25 | `truncate("Hello world", 5) == "Hello..."` |
| Schema.TextMonotone | lib/validations/category.ts:5-8 | loosening a string's length bounds keeps every string it accepted, unchanged |
| Schema.Count | lib/validations/product.ts:27-30 | accepts exactly the whole numbers that are not negative |
| Schema.PositiveInt | lib/validations/product.ts:14 | accepts exactly the whole numbers greater than zero |
| Schema.NumberChecks | lib/validations/product.ts:14-30 | a positive whole number passes the positive-number check and the count check with the same value; a non-zero count is a positive whole number |
| Schema.RequiredRefinesOptional | lib/validations/product.ts:20-48 | a required field and an optional one agree on every present value; only the required one fails on a missing value |
| Schema.NullableExtendsOptional | lib/validations/product.ts:36-65 | adding `.nullable()` keeps everything `.optional()` accepted, adds only `null`, and agrees with it elsewhere |
| Schema.DefaultFillsMissing | lib/validations/product.ts:27-32 | `.optional().default(d)` fails exactly where the check fails on a present value, gives `d` for a missing one, and the check's value otherwise |
| Schema.ArrayOf | lib/validations/product.ts:40 | an array passes exactly when every element does, and the output keeps the elements' order |
| ProductValidation.FailedKeys | lib/validations/product.ts:19-41 | the reported keys are exactly the failing fields, and none is reported only when no field failed |
| ProductValidation.ImageSchema | lib/validations/product.ts:10-16 | accepts exactly the objects with a valid URL, a missing or UUID `id`, a missing, `null` or string `altText` and `providerImageId`, and a missing, `null` or positive whole `order`; the accepted values are the body's, `null` kept apart from missing |
| ProductValidation.ImageList | lib/validations/product.ts:40 | the list is accepted exactly when it is missing or is an array whose every element passes the image schema; a missing list becomes empty; an accepted one holds each element's parsed value, in order |
| ProductValidation.CreateProductWith | lib/validations/product.ts:19-41 | a non-object fails with no key; an object that fails names at least one key; accepted data has a name of 3 or more UTF-16 code units, a positive price, a non-negative stock and a UUID category, and its images are the body's images, each accepted, in order; which objects are accepted is stated by `ProductValidation.CreateAccepts` |
| ProductValidation.CreateAccepts | lib/validations/product.ts:19-41 | an object is accepted exactly when all ten keys meet their rules: a name of 3 or more UTF-16 code units, a positive price, a missing or whole non-negative stock, a UUID category id, missing-or-string texts, a missing-or-boolean `isActive` and a missing-or-acceptable image array |
| ProductValidation.CreateTextRules | lib/validations/product.ts:23-38 | create fails on `description`, `material`, `color` or `dimensions` exactly when that key is present and not a string |
| ProductValidation.CreateIsActiveRule | lib/validations/product.ts:39 | create fails on `isActive` exactly when it is present and not a boolean |
| ProductValidation.CreateImagesRule | lib/validations/product.ts:40 | create fails on `images` exactly when it is present and not an array of acceptable images |
| ProductValidation.CreateKeepsValues | lib/validations/product.ts:19-41 | accepted data holds the body's own name, price and category id, and its description, material, color and dimensions are missing exactly when the body omits them and the body's strings otherwise |
| ProductValidation.CreateFillsDefaults | lib/validations/product.ts:27-39 | accepted data takes `stock` and `isActive` from the body when sent and 0 and true otherwise |
| ProductValidation.CreateProduct | lib/validations/product.ts:19-41 | every accepted image has a valid URL |
| ProductValidation.UpdateProduct | lib/validations/product.ts:44-68 | the same bounds as create for every field that is present; which objects are accepted is stated by `ProductValidation.UpdateAccepts` |
| ProductValidation.UpdateAccepts | lib/validations/product.ts:44-68 | an object is accepted exactly when every key is missing or meets create's rule, the four nullable strings may also be `null`, and a present `images` is an array of acceptable images |
| ProductValidation.UpdateTextRules | lib/validations/product.ts:49-65 | update fails on `description`, `material`, `color` or `dimensions` exactly when that key is present, not `null` and not a string |
| ProductValidation.UpdateIsActiveRule | lib/validations/product.ts:66 | update fails on `isActive` exactly when it is present and not a boolean |
| ProductValidation.UpdateImagesRule | lib/validations/product.ts:67 | update fails on `images` exactly when it is present and not an array of acceptable images |
| ProductValidation.UpdateKeepsValues | lib/validations/product.ts:44-66 | accepted data holds the body's own name, price, stock, category id and `isActive`, each missing exactly when the body omits it |
| ProductValidation.UpdateKeepsNullables | lib/validations/product.ts:49-65 | description, material, color and dimensions are missing, `null` or the body's string, exactly as the body sent them |
| ProductValidation.UpdateKeepsImages | lib/validations/product.ts:67 | the image list is missing exactly when the body omits it, and otherwise holds the body's entries, each accepted by the image schema, in order |
| ProductValidation.NameRule | lib/validations/product.ts:20-48 | create fails on `name` exactly when it is not a string of 3 or more UTF-16 code units; update fails on it only when it is present and bad |
| ProductValidation.SurrogatePairName | lib/validations/product.ts:20-22 | a name of two characters, one outside the Basic Multilingual Plane, is long enough, because zod counts it as three code units |
| ProductValidation.PriceRule | lib/validations/product.ts:24-53 | create fails on `price` exactly when it is not a positive number; update fails on it only when it is present and bad |
| ProductValidation.StockRule | lib/validations/product.ts:27-58 | both schemas fail on a present `stock` that is not a whole number of at least 0; a missing one becomes 0 on create and stays missing on update |
| ProductValidation.CategoryIdRule | lib/validations/product.ts:33-62 | create fails on `categoryId` exactly when it is not a UUID string; update fails on it only when it is present and bad |
| ProductValidation.DefaultsRule | lib/validations/product.ts:39-67 | create fills in `isActive = true` and `images = []`; update leaves both missing |
| ProductValidation.ImageRule | lib/validations/product.ts:10-16 | an accepted image has a valid URL; an image with a valid URL whose other keys are `altText`, `order` or `providerImageId` set to `null` is accepted |
| ProductValidation.EmptyObjectRule | lib/validations/product.ts:19-68 | `{}` fails create on exactly `name`, `price` and `categoryId`, and passes update with nothing set |
| ProductValidation.CreateImpliesUpdate | lib/validations/product.ts:19-68 | whatever create accepts, update accepts with the same name, price, category, and the same stock and images when the body sets them |
| CategoryValidation.CreateCategory | lib/validations/category.ts:4-10 | accepts exactly the objects with a string name of 2 to 50 UTF-16 code units and a missing or string description; a failing object names at least one key; the accepted name and description are the body's |
| CategoryValidation.UpdateCategory | lib/validations/category.ts:13-20 | accepts exactly the objects whose name is missing or 2 to 50 UTF-16 code units and whose description is missing, `null` or a string; the accepted name and description are the body's, `null` kept apart from missing |
| CategoryValidation.CategoryNameRule | lib/validations/category.ts:5-18 | create fails on `name` exactly when it is not a string of 2 to 50 UTF-16 code units; update fails on it only when it is present and bad |
| CategoryValidation.SurrogatePairCategoryName | lib/validations/category.ts:5-8 | a one-character name outside the Basic Multilingual Plane is long enough, because zod counts it as two code units |
| CategoryValidation.NullDescriptionRule | lib/validations/category.ts:9-19 | a `null` description fails create and passes update as `null` |
| CategoryValidation.EmptyCategoryObject | lib/validations/category.ts:4-20 | `{}` fails create on exactly `name`, and passes update with nothing set |
| CategoryValidation.CreateCategoryImpliesUpdate | lib/validations/category.ts:4-20 | whatever create accepts, update accepts with the same name and description |
| ProductForm.Loaded | components/admin/ProductForm.tsx:63-69 | a stored image loads with its id, address and provider id; its alt text is the stored one when non-empty and the empty string otherwise; its order is the stored one when non-zero and missing otherwise; it has no upload state |
| ProductForm.InitialImages | components/admin/ProductForm.tsx:62-70 | a new product starts with no entries; an edited one with one loaded entry per stored image, in order |
| ProductForm.Placeholders | components/admin/ProductForm.tsx:106-114 | one placeholder per file, numbered consecutively |
| ProductForm.AddPlaceholders | components/admin/ProductForm.tsx:105-115 | selecting N files appends N entries after the untouched old ones; entry i has an empty address, the file's name, order `count + i + 1`, the file, and is uploading |
| ProductForm.FindUploading | components/admin/ProductForm.tsx:140-142 | finds the first entry that holds the file and is uploading, or reports that none does |
| ProductForm.FailureMessage | components/admin/ProductForm.tsx:130-165 | a refused upload records the server's message when it is non-empty, else `Error al subir <name>`; a thrown `Error` records its own message; any other thrown value records `Error desconocido` |
| ProductForm.UploadSucceeded | components/admin/ProductForm.tsx:138-152 | only the first waiting entry of the file changes: it gets the address and provider id, and stops uploading with no file and no error; with no such entry the list is unchanged |
| ProductForm.UploadFailed | components/admin/ProductForm.tsx:153-168 | only the first waiting entry of the file changes: it stops uploading and records the message, keeping its address and file; with no such entry the list is unchanged |
| ProductForm.UploadFinished | components/admin/ProductForm.tsx:123-169 | an upload's answer changes only the first entry still waiting for the file, or nothing when none waits: that entry stops uploading and takes the address and provider id of a success, or the message of a failure |
| ProductForm.SelectFiles | components/admin/ProductForm.tsx:101-174 | a selection adds exactly one entry per file |
| ProductForm.FinishFirst | components/admin/ProductForm.tsx:117-169 | the first file's answer settles exactly its own placeholder |
| ProductForm.UploadAll | components/admin/ProductForm.tsx:117-170 | the uploads keep the list's length; what each entry becomes is stated by `ProductForm.UploadAllSettles` |
| ProductForm.UploadAllSettles | components/admin/ProductForm.tsx:117-170 | uploading distinct files one after the other settles every placeholder, each by its own file's answer |
| ProductForm.SelectFilesOutcome | components/admin/ProductForm.tsx:101-174 | a selection of distinct new files ends as the old entries followed by one settled entry per file, whatever the other files' answers |
| ProductForm.SelectFilesSettlesUploads | components/admin/ProductForm.tsx:533-536 | once a selection has settled, the submit button is enabled exactly when it was before |
| ProductForm.SelectFilesSubmission | components/admin/ProductForm.tsx:101-174 | after a selection, the form sends the old submission followed by every successful upload, in selection order |
| ProductForm.TwoFileScenario | components/admin/ProductForm.tsx:101-174 | two files, one uploaded and one failing: two entries, and only the uploaded one is sent |
| ProductForm.EditDetail | components/admin/ProductForm.tsx:176-195 | an out-of-range index changes nothing; no other entry changes; the edited entry equals the old one with exactly the named field replaced: `id`, `url`, `altText` and `providerImageId` by the value, a string order by its parse, with NaN or 0 unsetting it; a numeric order and `file`, `isUploading` and `uploadError` change nothing |
| ProductForm.EditKeepsSubmittable | components/admin/ProductForm.tsx:176-195 | editing the alt text or order never changes which entries are sent |
| ProductForm.EditKeepsSubmitDisabled | components/admin/ProductForm.tsx:176-195 | no edit changes the submit button's state |
| ProductForm.RemoveImage | components/admin/ProductForm.tsx:197-221 | removal drops exactly the entry at the index, keeps the others in order, and asks for a remote delete exactly when the entry's provider id is truthy; an index naming no entry throws |
| ProductForm.RemoveSubmission | components/admin/ProductForm.tsx:197-233 | removing an entry removes only its own projection from what is sent |
| ProductForm.RemoveIgnoresDeleteOutcome | components/admin/ProductForm.tsx:211-220 | the provider's answer to the deletion does not affect the list |
| ProductForm.SubmitImages | components/admin/ProductForm.tsx:225-233 | no more images are sent than there are entries |
| ProductForm.SubmitMembers | components/admin/ProductForm.tsx:225-233 | every sent image is the projection of a submittable entry, and every submittable entry's projection is sent |
| ProductForm.SubmitSource | components/admin/ProductForm.tsx:225-233 | each sent image comes from a submittable entry, found at a definite position |
| ProductForm.SubmitComplete | components/admin/ProductForm.tsx:225-233 | every submittable entry's projection is sent |
| ProductForm.SubmitAppend | components/admin/ProductForm.tsx:225-233 | the submission filters entry by entry and keeps list order |
| ProductForm.SubmitSingle | components/admin/ProductForm.tsx:226-233 | one entry is sent, projected to its five fields, exactly when its address is non-empty, it is not uploading and it has no error |
| ProductForm.PendingOrFailedNotSubmitted | components/admin/ProductForm.tsx:226 | an entry that is uploading or carries an error is never sent |
| ProductForm.LoadThenSubmit | components/admin/ProductForm.tsx:62-70 | loading a product whose images all have addresses and submitting at once sends every image back with its id, address and provider id, with the button enabled |
| ProductForm.AllSubmittable | components/admin/ProductForm.tsx:225-233 | when every entry is submittable, every entry is sent, in order |
| ProductForm.AnyUploading | components/admin/ProductForm.tsx:535 | true exactly when some entry is uploading |
| ProductForm.AnyUploadingAppend | components/admin/ProductForm.tsx:535 | some entry of a joined list is uploading exactly when one of either part is |
| ProductForm.SubmitDisabled | components/admin/ProductForm.tsx:533-536 | the button is disabled exactly while submitting or while some entry is uploading |
| ProductsRoute.RouteImageSchema | app/api/products/route.ts:6-10 | the route's image schema accepts exactly objects with a valid URL, a missing or string alt text, and a missing or positive whole order; the accepted URL, alt text and order are the body's |
| ProductsRoute.RouteSchema | app/api/products/route.ts:12-34 | every accepted image has a valid URL and an order of at least 1 when given |
| ProductsRoute.ImageRowOf | app/api/products/route.ts:137-141 | an image row keeps the address, takes the product name for a missing or empty alt text, and takes 1 for a missing order |
| ProductsRoute.ImageRows | app/api/products/route.ts:137-141 | one row per image, in order |
| ProductsRoute.Row | app/api/products/route.ts:123-144 | the product row carries every validated field (name, description, price, stock, category, material, color, dimensions, `isActive`), and nested image rows exactly when there is at least one image |
| ProductsRoute.Post | app/api/products/route.ts:78-164 | 400 exactly when the schema rejects the body, with its failing keys; 404 exactly when the body is valid, the lookup does not throw, and the category is unknown; 201 exactly when the body is valid, the category exists and no call throws, with the row of the validated data; 500 otherwise |
| ProductsRoute.StatusCodes | app/api/products/route.ts:78-164 | every response is 400, 404, 201 or 500, and a created product's category exists |
| ProductsRoute.CreatedImageRows | app/api/products/route.ts:134-143 | a created product has one row per submitted image in the same order, each with a valid address, a non-empty alt text and an order of at least 1; no images means no nested create |
| ProductsRoute.ValidationFirst | app/api/products/route.ts:83-93 | a rejected body is answered 400 whatever the categories and the database do |
| CategoriesRoute.ConflictLabel | app/api/categories/route.ts:84-89 | the conflict names `nombre` when the target includes `name`, else the slug label when it includes `slug`, else `desconocido` |
| CategoriesRoute.ConflictLabels | app/api/categories/route.ts:84-89 | with a target listing both fields the name wins; a slug-only target gives the slug label; no target gives `desconocido` |
| CategoriesRoute.Post | app/api/categories/route.ts:54-104 | an unreadable or `null` body gives 500; 400 exactly when the name is missing, not a string or blank; 201 exactly when the name is accepted and the create succeeds; 409 exactly when it throws `P2002`, with the conflict message |
| CategoriesRoute.CreatedCategory | app/api/categories/route.ts:70-76 | a created category's name is the trimmed name, non-empty and without surrounding white space; its slug is well formed and is the slug of the name; a truthy description is stored as the body's own value and a falsy one as `null` |
| CategoriesRoute.BlankNameRefused | app/api/categories/route.ts:60-68 | a blank string name is refused with 400 whatever the database would do |
| CategoriesRoute.OtherErrors | app/api/categories/route.ts:95-102 | any database error other than `P2002` ends in 400 or 500, never in 201 or 409 |

## Left out

- Network, database and image-store I/O. The `fetch` calls, Prisma and ImageKit are inputs: an upload's answer per file, a deletion's answer, the set of existing category ids, and which database call throws.
- The GET handlers, the pages, the layouts and the middleware: these are rendering and queries without logic of their own.
- Async interleaving in the form: events are applied one after the other, each upload's update before the next upload starts.
- Error bodies of 400 and 500 responses: the 400 of the products route is modelled as the set of failing keys, not zod's per-field message lists, and 500 responses carry no message in the model.
- The `url` and `uuid` grammars of zod: they are the two predicates of `Formats`.
- `StringUtils.LowerChar`: maps ASCII capitals and the two non-ASCII characters whose lower case contains an ASCII letter (KELVIN SIGN and LATIN CAPITAL LETTER I WITH DOT ABOVE), and keeps every other character. The full Unicode lower-casing is not modelled. It cannot change what `slugify` returns, because every other character stays outside `[A-Za-z0-9_-]` and outside white space.
- `StringUtils.Capitalize`: upper-cases ASCII letters only, because the Unicode upper-case mapping is not modelled.
- `StringUtils.Truncate`: takes an integer limit, so a fractional or NaN `maxLength` is not modelled. Its lengths count characters rather than UTF-16 code units, and a cut never splits a surrogate pair. The schemas' length bounds do count UTF-16 code units (`Js.Utf16Length`).
- JSON numbers are exact reals, not IEEE doubles: there is no rounding, and no literal too large for a double turns into an infinity. `.positive()`, `.int()` and the other number checks are therefore decided on the exact value.
- `ProductForm.EditDetail`: requires a string value for `id`, `url`, `altText` and `providerImageId`, because a number stored in a string field has no value in the model. The form only passes strings to those fields.
- `ProductForm.UploadAll`: its own contract only keeps the length; the value of every entry after the uploads is stated by `ProductForm.UploadAllSettles`.
- `ProductForm.SubmitImages`: its own contract only bounds the length; membership in both directions is stated by `ProductForm.SubmitMembers` and order by `ProductForm.SubmitAppend`.
- `null` and `undefined` provider ids and alt texts in the form are both `None`: the form only tests them for truthiness and forwards them.
- An upload answer whose body lacks `url` or `fileId` is not modelled; a success always carries both strings.
- The `e.target.value = ''` reset of the file input: it is not part of the list state.
- The categories route's local `slugify` (`app/api/categories/route.ts:6-14`) chains the same five steps as the shared one, so the model uses `StringUtils.Slugify` for both.
- What the database does with a truthy description that is not a string: the row holds the body's value as sent, and the database's handling of it is not modelled.
