/**
 * The application state behind the request handlers: the product and user
 * tables, the set of files in the upload folder and the session's login
 * state. The library calls the handlers rely on (the filename sanitiser,
 * the password hash and check, the float parser) are fixed when the
 * application is created.
 */
module App {
  import opened Wrappers
  import opened Uploads
  import opened Catalog
  import opened Accounts

  /** The session's login state. */
  datatype Auth = Anonymous | Authenticated(userId: nat)

  /** An uploaded file, by the name the client gave it; its bytes are not modelled. */
  datatype Upload = Upload(filename: string)

  /** The fields of the add and edit forms; None stands for a field the request lacks. */
  datatype ProductForm = ProductForm(
    name: Option<string>,
    description: Option<string>,
    price: Option<string>,
    image: Option<Upload>)

  /**
   * How a handler ends: success, the redirect to the login page, the 404
   * page, one of the two validation messages, or an unhandled error.
   */
  datatype Outcome = Done | AuthRequired | NotFound | MissingFields | InvalidPrice | ServerError

  /** How a login attempt ends. */
  datatype LoginOutcome = AlreadyAuthenticated | LoggedIn | BadCredentials

  /** The result of validating the name and price fields. */
  datatype Checked = Accepted(name: string, price: Float) | Rejected(reason: Outcome)

  /** A form field that is missing or empty, as Python's `not` tests it. */
  predicate Blank(field: Option<string>)
  {
    field.None? || field.value == ""
  }

  /**
   * The validation shared by adding and editing: name and price must be
   * present and non-empty, then the price must parse.
   */
  function ValidateForm(name: Option<string>, price: Option<string>, parse: string -> Option<Float>): (r: Checked)
    ensures r.Accepted? <==> !Blank(name) && !Blank(price) && parse(price.value).Some?
    ensures r.Accepted? ==> name == Some(r.name) && r.name != "" && parse(price.value) == Some(r.price)
    ensures r == Rejected(MissingFields) <==> Blank(name) || Blank(price)
    ensures r == Rejected(InvalidPrice) <==> !Blank(name) && !Blank(price) && parse(price.value).None?
  {
    if Blank(name) || Blank(price) then Rejected(MissingFields)
    else match parse(price.value)
      case None => Rejected(InvalidPrice)
      case Some(p) => Accepted(name.value, p)
  }

  /** Whether a request carries an image to store: present, named, and of an allowed type. */
  predicate WantsImage(image: Option<Upload>)
  {
    image.Some? && image.value.filename != "" && AllowedFile(image.value.filename)
  }

  /**
   * The file an edit with a new image removes first: the product's current
   * image, when it has a non-empty one.
   */
  function StaleImage(p: Product): set<string>
  {
    if p.imageFilename.Some? && p.imageFilename.value != "" then {p.imageFilename.value} else {}
  }

  class RestaurantApp {
    /** The filename sanitiser of the web library. */
    const sanitize: string -> string
    /** The password hashing function of the web library. */
    const hashPassword: string -> string
    /** The password check of the web library: stored hash, then candidate password. */
    const checkPassword: (string, string) -> bool
    /** Parsing a price field as a float; None where the parser raises. */
    const parseFloat: string -> Option<Float>

    var users: seq<User>
    var products: map<nat, Product>
    /** The names of the files in the upload folder. */
    var uploads: set<string>
    var auth: Auth

    ghost predicate Valid()
      reads this
    {
      && ContiguousIds(products)
      && ImagesNamedByIds(products)
      && UniqueUsernames(users)
      && (auth.Authenticated? ==> 1 <= auth.userId <= |users|)
    }

    /** A fresh database with empty tables, an empty upload folder and nobody logged in. */
    constructor (sanitize: string -> string, hashPassword: string -> string,
                 checkPassword: (string, string) -> bool, parseFloat: string -> Option<Float>)
      ensures Valid()
      ensures this.sanitize == sanitize && this.hashPassword == hashPassword
      ensures this.checkPassword == checkPassword && this.parseFloat == parseFloat
      ensures users == [] && products == map[] && uploads == {} && auth == Anonymous
    {
      this.sanitize := sanitize;
      this.hashPassword := hashPassword;
      this.checkPassword := checkPassword;
      this.parseFloat := parseFloat;
      users := [];
      products := map[];
      uploads := {};
      auth := Anonymous;
    }

    /** Start-up: create the administrator account unless it exists. */
    method InitDb()
      requires Valid()
      modifies this`users
      ensures Valid()
      ensures users == Bootstrap(old(users), hashPassword)
      ensures CountNamed(users, ADMIN_USERNAME) == 1
    {
      BootstrapOneAdmin(users, hashPassword);
      if FindUser(users, ADMIN_USERNAME).None? {
        users := users + [User(ADMIN_USERNAME, hashPassword(DEFAULT_ADMIN_PASSWORD))];
      }
    }

    /**
     * The login form's submission. A logged-in caller is sent on unchanged;
     * otherwise the session becomes logged in exactly when the credentials
     * check out.
     */
    method Login(username: Option<string>, password: Option<string>) returns (o: LoginOutcome)
      requires Valid()
      modifies this`auth
      ensures Valid()
      ensures old(auth).Authenticated? ==> o == AlreadyAuthenticated && auth == old(auth)
      ensures old(auth).Anonymous? ==>
        match Verify(users, username, password, checkPassword)
        case Some(id) => o == LoggedIn && auth == Authenticated(id)
        case None => o == BadCredentials && auth == Anonymous
    {
      if auth.Authenticated? {
        return AlreadyAuthenticated;
      }
      var found := Verify(users, username, password, checkPassword);
      if found.Some? {
        VerifyIff(users, username, password, checkPassword, found.value);
        auth := Authenticated(found.value);
        o := LoggedIn;
      } else {
        o := BadCredentials;
      }
    }

    /** Logging out: the session ends up anonymous; an anonymous caller is sent to the login page. */
    method Logout() returns (o: Outcome)
      requires Valid()
      modifies this`auth
      ensures Valid()
      ensures auth == Anonymous
      ensures o == if old(auth).Anonymous? then AuthRequired else Done
    {
      if auth.Anonymous? {
        return AuthRequired;
      }
      auth := Anonymous;
      o := Done;
    }

    /** The dashboard: the number of active products, for a logged-in caller. */
    method Dashboard() returns (o: Outcome, count: nat)
      requires Valid()
      ensures o == (if auth.Anonymous? then AuthRequired else Done)
      ensures count == (if auth.Anonymous? then 0 else ActiveCount(products))
    {
      if auth.Anonymous? {
        return AuthRequired, 0;
      }
      o, count := Done, |Listing(products)|;
    }

    /** The staff product listing: the active products in id order, for a logged-in caller. */
    method Products() returns (o: Outcome, rows: seq<Row>)
      requires Valid()
      ensures o == (if auth.Anonymous? then AuthRequired else Done)
      ensures rows == (if auth.Anonymous? then [] else Listing(products))
      ensures forall id :: Listed(rows, id) ==> id in products && products[id].isActive
    {
      if auth.Anonymous? {
        return AuthRequired, [];
      }
      o, rows := Done, Listing(products);
      ActiveRowsSpec(products, |products|);
    }

    /** The public menu: the active products in id order, for anyone. */
    method Menu() returns (rows: seq<Row>)
      requires Valid()
      ensures rows == Listing(products)
      ensures forall id :: Listed(rows, id) <==> id in products && products[id].isActive
    {
      rows := Listing(products);
      forall id ensures Listed(rows, id) <==> id in products && products[id].isActive {
        ListedIff(products, id);
      }
    }

    /** Looking a product up by id, active or not, as the edit form does; 404 if absent. */
    method GetProduct(id: nat) returns (o: Outcome, product: Option<Product>)
      requires Valid()
      ensures auth.Anonymous? ==> o == AuthRequired && product == None
      ensures auth.Authenticated? && id !in products ==> o == NotFound && product == None
      ensures auth.Authenticated? && id in products ==> o == Done && product == Some(products[id])
    {
      if auth.Anonymous? {
        return AuthRequired, None;
      }
      if id !in products {
        return NotFound, None;
      }
      o, product := Done, Some(products[id]);
    }

    /**
     * The image name a successful add or edit stores for the product `id`
     * named `name`, or None when the request carries no image to store.
     */
    function NewImageName(name: string, id: nat, image: Option<Upload>): Option<string>
      reads this
      requires WantsImage(image) ==> StoredImageName(sanitize, name, id, image.value.filename).Some?
    {
      if WantsImage(image) then StoredImageName(sanitize, name, id, image.value.filename) else None
    }

    /**
     * Adding a product. A rejected request changes nothing; a successful one
     * inserts exactly one active product under the next id, stores its image
     * under a name numbered by the row count plus one (which is that id),
     * and appends it to the listing.
     */
    method AddProduct(form: ProductForm) returns (o: Outcome)
      requires Valid()
      modifies this`products, this`uploads
      ensures Valid()
      ensures auth.Anonymous? ==> o == AuthRequired
      ensures auth.Authenticated? && ValidateForm(form.name, form.price, parseFloat).Rejected? ==>
        o == ValidateForm(form.name, form.price, parseFloat).reason
      ensures auth.Authenticated? && ValidateForm(form.name, form.price, parseFloat).Accepted? ==>
        o == (if WantsImage(form.image)
                 && StoredImageName(sanitize, form.name.value, |old(products)| + 1, form.image.value.filename).None?
              then ServerError else Done)
      ensures o != Done ==> products == old(products) && uploads == old(uploads)
      ensures o == Done ==>
        var checked := ValidateForm(form.name, form.price, parseFloat);
        var id := |old(products)| + 1;
        var image := NewImageName(checked.name, id, form.image);
        && id !in old(products)
        && products == old(products)[id := Product(checked.name, form.description, checked.price, image, true)]
        && uploads == old(uploads) + (if image.Some? then {image.value} else {})
        && Listing(products) == Listing(old(products)) + [Row(id, products[id])]
    {
      if auth.Anonymous? {
        return AuthRequired;
      }
      var checked := ValidateForm(form.name, form.price, parseFloat);
      if checked.Rejected? {
        return checked.reason;
      }
      var image: Option<string> := None;
      if WantsImage(form.image) {
        var stored := StoredImageName(sanitize, checked.name, |products| + 1, form.image.value.filename);
        if stored.None? {
          return ServerError;
        }
        StoredImageNameNamedFor(sanitize, checked.name, |products| + 1, form.image.value.filename);
        image := stored;
        uploads := uploads + {stored.value};
      }
      var product := Product(checked.name, form.description, checked.price, image, true);
      ListingAfterInsert(products, product);
      products := products[NextId(products) := product];
      o := Done;
    }

    /**
     * Editing a product by id. An unknown id is a 404 and a rejected form
     * changes nothing. A valid form replaces name, description and price,
     * keeps the active flag, and keeps the image name unless an allowed
     * image comes with it, which is then stored under the new name numbered
     * by the id, the previous file being removed first. When the new image
     * name cannot be formed the request fails after that removal.
     */
    method EditProduct(id: nat, form: ProductForm) returns (o: Outcome)
      requires Valid()
      modifies this`products, this`uploads
      ensures Valid()
      ensures auth.Anonymous? ==> o == AuthRequired
      ensures auth.Authenticated? && id !in products ==> o == NotFound
      ensures auth.Authenticated? && id in products && ValidateForm(form.name, form.price, parseFloat).Rejected? ==>
        o == ValidateForm(form.name, form.price, parseFloat).reason
      ensures auth.Authenticated? && id in old(products) && ValidateForm(form.name, form.price, parseFloat).Accepted? ==>
        o == (if WantsImage(form.image)
                 && StoredImageName(sanitize, form.name.value, id, form.image.value.filename).None?
              then ServerError else Done)
      ensures o != Done ==> products == old(products)
      ensures o != Done && o != ServerError ==> uploads == old(uploads)
      ensures o == Done || o == ServerError ==> id in old(products)
      ensures o == ServerError ==> uploads == old(uploads) - StaleImage(old(products)[id])
      ensures o == Done ==>
        var checked := ValidateForm(form.name, form.price, parseFloat);
        var before := old(products)[id];
        var image := if WantsImage(form.image) then NewImageName(checked.name, id, form.image) else before.imageFilename;
        && products == old(products)[id := Product(checked.name, form.description, checked.price, image, before.isActive)]
        && (WantsImage(form.image) ==>
              uploads == old(uploads) - StaleImage(before) + {image.value})
        && (!WantsImage(form.image) ==> uploads == old(uploads))
        && ActiveCount(products) == ActiveCount(old(products))
    {
      if auth.Anonymous? {
        return AuthRequired;
      }
      if id !in products {
        return NotFound;
      }
      var before := products[id];
      var checked := ValidateForm(form.name, form.price, parseFloat);
      if checked.Rejected? {
        return checked.reason;
      }
      var image := before.imageFilename;
      if WantsImage(form.image) {
        if before.imageFilename.Some? && before.imageFilename.value != "" {
          uploads := uploads - {before.imageFilename.value};
        }
        var stored := StoredImageName(sanitize, checked.name, id, form.image.value.filename);
        if stored.None? {
          return ServerError;
        }
        StoredImageNameNamedFor(sanitize, checked.name, id, form.image.value.filename);
        image := stored;
        uploads := uploads + {stored.value};
      }
      var product := Product(checked.name, form.description, checked.price, image, before.isActive);
      ActiveCountAfterEdit(products, id, product);
      products := products[id := product];
      o := Done;
    }

    /**
     * Soft-deleting a product by id: only its active flag is cleared, so it
     * leaves the listing and the count but is still found by id. An unknown
     * id is a 404 and changes nothing.
     */
    method DeleteProduct(id: nat) returns (o: Outcome)
      requires Valid()
      modifies this`products
      ensures Valid()
      ensures o == (if auth.Anonymous? then AuthRequired else if id !in old(products) then NotFound else Done)
      ensures o != Done ==> products == old(products)
      ensures o == Done ==>
        && products == old(products)[id := old(products)[id].(isActive := false)]
        && id in products && !products[id].isActive
        && !Listed(Listing(products), id)
        && ActiveCount(products) == ActiveCount(old(products)) - (if old(products)[id].isActive then 1 else 0)
    {
      if auth.Anonymous? {
        return AuthRequired;
      }
      if id !in products {
        return NotFound;
      }
      ListingAfterDeactivate(products, id);
      products := products[id := products[id].(isActive := false)];
      o := Done;
    }
  }

  /**
   * A fresh installation after start-up, with the administrator logged in
   * using the default password.
   */
  method AdminSession(sanitize: string -> string, hashPassword: string -> string,
                      checkPassword: (string, string) -> bool, parseFloat: string -> Option<Float>)
    returns (app: RestaurantApp)
    requires checkPassword(hashPassword(DEFAULT_ADMIN_PASSWORD), DEFAULT_ADMIN_PASSWORD)
    ensures fresh(app) && app.Valid()
    ensures app.sanitize == sanitize && app.parseFloat == parseFloat
    ensures app.products == map[] && app.auth == Authenticated(1)
  {
    app := new RestaurantApp(sanitize, hashPassword, checkPassword, parseFloat);
    app.InitDb();
    assert app.users == [User(ADMIN_USERNAME, hashPassword(DEFAULT_ADMIN_PASSWORD))];
    BootstrappedAdminCanLogIn([], hashPassword, checkPassword);
    var login := app.Login(Some(ADMIN_USERNAME), Some(DEFAULT_ADMIN_PASSWORD));
  }

  /** The administrator's session after adding "Taco" at "3.50" without an image. */
  method TacoSession(sanitize: string -> string, hashPassword: string -> string,
                     checkPassword: (string, string) -> bool, parseFloat: string -> Option<Float>)
    returns (app: RestaurantApp)
    requires checkPassword(hashPassword(DEFAULT_ADMIN_PASSWORD), DEFAULT_ADMIN_PASSWORD)
    requires parseFloat("3.50") == Some(3.5)
    ensures fresh(app) && app.Valid()
    ensures app.parseFloat == parseFloat && app.auth.Authenticated?
    ensures app.products == map[1 := Product("Taco", None, 3.5, None, true)]
  {
    app := AdminSession(sanitize, hashPassword, checkPassword, parseFloat);
    assert ValidateForm(Some("Taco"), Some("3.50"), parseFloat) == Accepted("Taco", 3.5);
    assert !WantsImage(None) && app.NewImageName("Taco", 1, None) == None;
    var added := app.AddProduct(ProductForm(Some("Taco"), None, Some("3.50"), None));
    assert added == Done;
  }

  /**
   * A session on a fresh installation: the administrator adds "Taco" at
   * "3.50" without an image, tries to set its price to "abc", and deletes
   * it. The listing first holds the one new product, the bad edit is
   * refused and leaves the price alone, and after the delete the public
   * menu is empty while the product is still found by id, inactive.
   */
  method TacoScenario(sanitize: string -> string, hashPassword: string -> string,
                      checkPassword: (string, string) -> bool, parseFloat: string -> Option<Float>)
    returns (listed: seq<Row>, rejected: Outcome, menu: seq<Row>, found: Option<Product>)
    requires checkPassword(hashPassword(DEFAULT_ADMIN_PASSWORD), DEFAULT_ADMIN_PASSWORD)
    requires parseFloat("3.50") == Some(3.5)
    requires parseFloat("abc") == None
    ensures listed == [Row(1, Product("Taco", None, 3.5, None, true))]
    ensures rejected == InvalidPrice
    ensures menu == []
    ensures found == Some(Product("Taco", None, 3.5, None, false))
  {
    var app := TacoSession(sanitize, hashPassword, checkPassword, parseFloat);
    var taco := Product("Taco", None, 3.5, None, true);
    var o;
    o, listed := app.Products();
    assert Listing(map[]) == [];
    assert ValidateForm(Some("Taco"), Some("abc"), parseFloat) == Rejected(InvalidPrice);
    rejected := app.EditProduct(1, ProductForm(Some("Taco"), None, Some("abc"), None));
    assert app.products == map[1 := taco];
    var deleted := app.DeleteProduct(1);
    assert app.products == map[1 := taco.(isActive := false)];
    menu := app.Menu();
    assert ActiveRows(app.products, 1) == [];
    o, found := app.GetProduct(1);
  }
}
