# Restaurant menu back end: a Dafny model

This project models the core of a small restaurant-menu web application
(`app.py`). Staff log in and manage a product catalog: they add, edit and
soft-delete products, and they may attach an image to a product. The public
menu page lists the active products.

The model has six modules:

- `Wrappers`: the `Option` type. It stands for a missing form field, a NULL
  column and a failed parse.
- `Text`: the string operations the handlers apply themselves. These are
  lower-casing, the text after the last dot (`rsplit('.', 1)[1]`), `str(n)`
  and the slice `[:20]`.
- `Uploads`: the extension allow-list (`allowed_file`) and the name an accepted
  image is stored under, `<name_part>_<n>.<ext>`.
- `Catalog`: the product row and the active-product query. The product table
  is a map from id to `Product`. A soft delete clears `isActive`. The listings
  and the dashboard count show only active rows, in ascending id order.
- `Accounts`: the user row, lookup by exact user name, the credential check,
  and the start-up step that creates the `admin` account.
- `App`: the class `RestaurantApp`. It holds the two tables, the set of
  files in the upload folder and the session's login state. Each request
  handler is a method that updates this state: `Login`, `Logout`, `Dashboard`,
  `Products`, `Menu`, `AddProduct`, `EditProduct`, `DeleteProduct`,
  `GetProduct` (the edit form's get-or-404) and `InitDb`.

The handlers call three library functions, and each one becomes a parameter
of the constructor:

- the filename sanitiser, a `string -> string`;
- password hashing and checking, a `string -> string` and a
  `(string, string) -> bool`;
- the float parser, a `string -> Option<Float>`.

The model proves nothing about these functions beyond what app.py itself
does with their results.

Product ids model SQLite row ids. The store hands them out in order and
never removes a row, so the ids in use are always 1 through the row count
(`Catalog.ContiguousIds`, part of `RestaurantApp.Valid`). As a result, the
number that `add_product` puts in an image name (the row count plus one) is
the new product's own id. The edit handler uses the product id too. The class
invariant therefore also states that every image name carries its product's
id (`Catalog.ImagesNamedByIds`). Since the name format is injective, two
products never share an image name.

In three places app.py does less than a reader might expect; the model
follows the code:

- The price is not checked to be non-negative. Any value the parser returns
  is stored.
- The stored extension comes from the sanitised upload name, not from the
  name the client sent. If the sanitised name has no dot, taking its suffix
  raises an error: the handler ends in `ServerError` and no row changes. In
  the edit handler this happens after the previous image file was removed,
  so the row keeps pointing at a file that is gone.
- The image name is not guaranteed to pass the allow-list itself. It passes
  exactly when the sanitised upload name does (`StoredImageNameAllowed`).

## Model

| member | source | states |
|---|---|---|
| `Text.AfterLastDot` | app.py:54 | the text after the last dot is a dot-free suffix of the name, with a dot just before it |
| `Text.AfterLastDotOfParts` | app.py:54 | splitting `stem.ext` at its last dot gives back `ext` whenever `ext` holds no dot |
| `Text.LowerKeepsDots` | app.py:124 | lower-casing neither adds nor removes a dot |
| `Text.LowerIdempotent` | app.py:124 | lower-casing a lower-cased string changes nothing |
| `Text.Decimal` | app.py:125 | `str(n)` has at least one character, only digits, and no leading zero unless n is 0 |
| `Text.DecimalRoundTrip` | app.py:125 | reading back the digits of `str(n)` gives n |
| `Text.DecimalInjective` | app.py:179 | different numbers are written as different strings |
| `Text.Take` | app.py:123 | `s[:n]` is a prefix of s whose length is the smaller of n and the length of s |
| `Uploads.AllowedFileIff` | app.py:52-54 | a name is allowed exactly when some position holds its last dot and the text after it lower-cases to png, jpg, jpeg or gif |
| `Uploads.AllowedFileHasLastDot` | app.py:52-54 | an allowed name has a last dot followed by an allowed extension |
| `Uploads.AllowedFileFromLastDot` | app.py:52-54 | a last dot followed by an allowed extension makes the name allowed |
| `Uploads.AllowedFileOfParts` | app.py:52-54 | for `stem.ext` with a dot-free `ext`, only `ext` decides, after lower-casing |
| `Uploads.AllowedUpperCaseExtension` | app.py:52-54 | "photo.PNG" is allowed |
| `Uploads.LastSuffixAllowed` | app.py:52-54 | "archive.tar.gif" is allowed, because only the last suffix counts |
| `Uploads.LastSuffixRefused` | app.py:52-54 | "photo.png.exe" is refused, because only the last suffix counts |
| `Uploads.RefusedNames` | app.py:52-54 | "noext", "photo." and "malware.exe" are refused |
| `Uploads.ImageFilenameParts` | app.py:125 | `<name_part>_<n>.<ext>` starts with the name part and an underscore, its digits read back as n, and its last suffix is ext |
| `Uploads.StemUnderscore` | app.py:125 | in `<name_part>_<digits>` the underscore after the name part is the last one |
| `Uploads.ImageFilenameInjective` | app.py:177-179 | equal image names have equal name parts, numbers and extensions |
| `Uploads.NamedForUnique` | app.py:179 | an image name carries only one number |
| `Uploads.StoredImageName` | app.py:121-125 | the stored name is missing exactly when the sanitised upload name has no dot, which is where the suffix split raises |
| `Uploads.StoredImageNameShape` | app.py:121-125 | a stored name is at most 20 leading characters of the sanitised product name, `_`, digits that read back as the number, `.`, and the lower-cased last suffix of the sanitised upload name |
| `Uploads.StoredImageNameAllowed` | app.py:121-124 | a stored name has a lower-case extension, and it passes the allow-list exactly when the sanitised upload name does |
| `Uploads.StoredImageNameNamedFor` | app.py:123-125 | a stored name has the image-name format for its number |
| `Catalog.NextId` | app.py:41 | the id the store gives the next row is positive and not yet in use |
| `Catalog.ListedAppend` | app.py:94 | adding a row to a listing lists its id and keeps every id listed before |
| `Catalog.ActiveRowsSpec` | app.py:94 | the active-row query returns only active products, each under its own id; it returns every active product; ids ascend |
| `Catalog.ListedIff` | app.py:206 | a product is on the listing exactly when it exists and is active |
| `Catalog.ActiveRowsIgnoresLaterIds` | app.py:136-137 | a row with a higher id does not change the listing of the lower ids |
| `Catalog.ListingAfterInsert` | app.py:129-137 | inserting an active product under the next id keeps ids contiguous and adds it to the end of the listing |
| `Catalog.ActiveRowsCountAfterUpdate` | app.py:88 | replacing one row changes the active count only by what its old and new active flags say |
| `Catalog.ListingAfterDeactivate` | app.py:190-200 | after a soft delete the product is off the listing but still found by id with its other fields; the active count drops by one if it was active |
| `Catalog.ActiveCountAfterEdit` | app.py:150-182 | replacing a row without touching its active flag keeps the active count |
| `Catalog.DistinctImageNames` | app.py:123-125 | when every image name carries its product's id, no two products share an image name |
| `Accounts.FindUser` | app.py:69 | the lookup finds the first user with exactly that name, and finds nothing when no user has it |
| `Accounts.VerifyIff` | app.py:69-71 | with unique user names, the check gives user id k exactly when row k has the given name and the password check accepts the password against its hash |
| `Accounts.CountNamedUnique` | app.py:31 | with unique user names, a name belongs to one user if found and to none otherwise |
| `Accounts.Bootstrap` | app.py:242-247 | start-up keeps every existing user; it adds nothing when an `admin` exists, and otherwise adds exactly one row, the `admin` with the hashed default password |
| `Accounts.BootstrapIdempotent` | app.py:242-247 | running start-up twice gives the same users as running it once |
| `Accounts.BootstrapOneAdmin` | app.py:242-247 | after start-up there is exactly one `admin` and user names are still unique |
| `Accounts.BootstrappedAdminCanLogIn` | app.py:244-245 | an `admin` created at start-up can log in with the default password, if the hash library accepts a password against its own hash |
| `App.ValidateForm` | app.py:105-114 | a form is accepted exactly when name and price are present and non-empty and the price parses; a missing field and a bad price each give their own rejection |
| `App.RestaurantApp.constructor` | app.py:239 | a new installation has empty tables, an empty upload folder and nobody logged in |
| `App.RestaurantApp.InitDb` | app.py:237-247 | start-up applies `Bootstrap` to the users, which leaves exactly one `admin` |
| `App.RestaurantApp.Login` | app.py:62-77 | a logged-in caller is sent on with no state change; an anonymous caller becomes logged in as user k exactly when the credential check gives k, and stays anonymous otherwise |
| `App.RestaurantApp.Logout` | app.py:79-83 | the session ends up anonymous; an anonymous caller is sent to the login page |
| `App.RestaurantApp.Dashboard` | app.py:85-89 | a logged-in caller gets the number of active products; an anonymous caller is sent to the login page |
| `App.RestaurantApp.Products` | app.py:91-95 | a logged-in caller gets the active listing, which contains only active products; an anonymous caller gets the login redirect |
| `App.RestaurantApp.Menu` | app.py:204-207 | anyone gets the active listing, and it lists a product exactly when the product exists and is active |
| `App.RestaurantApp.GetProduct` | app.py:147 | lookup by id finds active and soft-deleted products alike; an unknown id gives NotFound |
| `App.RestaurantApp.AddProduct` | app.py:99-142 | each rejection (not logged in, missing field, bad price, undecodable image name) changes nothing; a success adds exactly one active product with the form's name, description and parsed price under the next id; its image name is set only for an allowed image and is numbered by that id; it goes at the end of the listing; other rows stay the same |
| `App.RestaurantApp.EditProduct` | app.py:146-186 | an unknown id is NotFound and a rejected form changes nothing; a valid edit replaces name, description and price and keeps the active flag; it keeps the image name unless an allowed image comes with it, in which case the old file is removed and the new one is stored under `<name_part>_<id>.<ext>`; the active count does not change |
| `App.RestaurantApp.DeleteProduct` | app.py:190-202 | only the product's active flag is cleared, with no change to other fields, other products or files; the product leaves the listing and the count but is still found by id; an unknown id is NotFound with no change |
| `App.AdminSession` | app.py:62-77 | on a new installation after start-up, the administrator's login with the default password succeeds |
| `App.TacoSession` | app.py:99-140 | adding "Taco" at "3.50" without an image stores exactly one active product with no image under id 1 |
| `App.TacoScenario` | app.py:146-207 | after that add the listing holds only Taco; an edit with price "abc" is rejected and the stored price stays 3.5; after the delete the menu is empty and lookup by id still returns Taco, now inactive |

## Left out

- QR-code generation (app.py:209-234): it is done by an image library and base64 encoding, and is not modelled.
- The GET views of `/`, `/login`, `/add_product` and `/edit_product` only render a page. Only the edit form's get-or-404 is modelled, as `GetProduct`.
- Flash messages, templates, redirects as HTTP responses, session cookies and loading the user for each request: these are framework plumbing. Only the resulting state and a handler outcome are modelled.
- The upload size cap (app.py:17) is enforced by the transport layer.
- File contents: the upload folder is modelled as a set of file names. Writing and removing bytes, and filesystem failures, are not modelled. The missing-file check before a removal is folded into set difference.
- Transactions: each handler's changes are applied together at its single commit. When a handler ends early, nothing is committed. This covers a mutated but uncommitted row in the edit handler.
- The filename sanitiser, password hashing, password check and float parser are parameters with no properties assumed. Float values are modelled as reals, and floating-point behaviour such as NaN, infinities and rounding is not modelled.
- `Text.LowerChar`: lower-cases only ASCII letters. For the allow-list check this gives the same result as full Unicode lowering. For the extension of a stored name it may differ on characters outside ASCII.
- `Accounts.Verify`: a login with an existing user name but no password field counts as a failed check. The source passes the missing value to the library's check, and that library code is not part of this model. Either way the session stays anonymous.
- Concurrent requests are not modelled. Each handler runs alone.
- The client-side script `static/js/script.js` only affects the browser page and is not part of this model.
- Start-up creates the directories and prints a message to the console. Neither is modelled.
