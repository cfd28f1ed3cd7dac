/** A small "catalog" project: app `catalog` with a model `Product` that has
    an `id` primary key, a documented `sku` field and a `category` relation
    to the app's second model, `Category`. */
module Scenarios {
  import opened Wrappers
  import opened Text
  import opened I18n
  import opened Registry
  import opened Descriptions
  import opened Introspection

  const CategoryRef: ModelRef := ModelRef("catalog", "category", "catalog.Category")

  const Sku: Field := Field("sku", false, true, false, None, "Stock code", "sku",
                            Some("CharField"), "CharField", None, None)

  const CategoryLink: Field := Field("category", false, true, true, Some(CategoryRef), "", "category",
                                     Some("ForeignKey"), "ForeignKey", None, None)

  /** The primary key Django adds to every model without one. */
  const Id: Field := Field("id", true, true, false, None, "", "ID", Some("AutoField"), "AutoField", None, None)

  /** The docstring Django's `ModelBase` gives a model class written
      without one: the class name and its concrete field names. */
  const GeneratedDoc: string := "Product(id, sku, category)"

  /** `Product` has no docstring of its own, so `inspect.getdoc` returns the
      generated one and the class itself declares none. */
  const Product: Model := Model("Product", "product", "catalog.Product", "catalog", "catalog_product",
                                "product", GeneratedDoc, "", [Id, Sku, CategoryLink])

  const ProductRef: ModelRef := ModelRef("catalog", "product", "catalog.Product")

  /** The reverse side of `Product.category`, which Django adds to
      `Category`: auto-created, not concrete, a relation back to `Product`. */
  const ProductsOfCategory: Field := Field("product", true, false, true, Some(ProductRef), "", "product",
                                           Some("ForeignKey"), "ManyToOneRel", Some("product_set"),
                                           Some(OriginField("category", "")))

  /** The target of `Product.category`, documented by its own docstring. */
  const Category: Model := Model("Category", "category", "catalog.Category", "catalog", "catalog_category",
                                 "category", "A group of products.", "A group of products.",
                                 [ProductsOfCategory, Id])

  const Catalog: App := App("catalog", "Catalog", "catalog", ["srv", "shop", "catalog"], "catalog.apps",
                            "", "", "", "", [Product, Category])

  /** An app installed from outside the project root. */
  const Vendor: App := App("vendor", "Vendor", "vendor", ["usr", "lib", "vendor"], "vendor.apps",
                           "", "", "", "", [])

  const Shop: Registry := Registry(["srv", "shop"], [Vendor, Catalog])

  lemma CatalogIsProjectApp(gettext: string -> string)
    ensures FindProjectApp(Shop, "catalog", gettext) == Success(Catalog)
  {
    assert Catalog.path == Shop.projectRoot + ["catalog"];
    assert Catalog in Shop.apps;
    VendorOutside();
  }

  /** The app outside the root is neither listed nor found. */
  lemma VendorIsHidden(gettext: string -> string)
    ensures forall e :: e in ListProjectApps(Shop, gettext) ==> e.appLabel != "vendor"
    ensures FindProjectApp(Shop, "vendor", gettext).Failure?
  {
    VendorOutside();
    ListedAreProject(Shop, gettext);
  }

  lemma VendorOutside()
    ensures forall a :: a in Shop.apps && IsProjectPath(Shop.projectRoot, a.path) ==> a == Catalog
  {
    assert Vendor.path[..2][0] == "usr" != "srv";
  }

  lemma ListedAreProject(reg: Registry, gettext: string -> string)
    ensures forall e :: e in ListProjectApps(reg, gettext) ==>
      exists a :: a in reg.apps && IsProjectPath(reg.projectRoot, a.path) && e.appLabel == a.appLabel
  {
  }

  /** `list_app_models("catalog")` lists `Product`. */
  lemma CatalogListsProduct(gettext: string -> string)
    ensures ListAppModels(Shop, "catalog", gettext).Success?
    ensures exists e :: e in ListAppModels(Shop, "catalog", gettext).value && e.name == "Product"
  {
    CatalogIsProjectApp(gettext);
    ModelIsListed(Shop, "catalog", Product, gettext);
    assert ModelEntryOf(Product, gettext).name == "Product";
  }

  lemma ModelIsListed(reg: Registry, appLabel: string, m: Model, gettext: string -> string)
    requires FindProjectApp(reg, appLabel, gettext).Success? && m in FindProjectApp(reg, appLabel, gettext).value.models
    ensures ListAppModels(reg, appLabel, gettext).Success?
    ensures ModelEntryOf(m, gettext) in ListAppModels(reg, appLabel, gettext).value
  {
  }

  lemma LowerProduct()
    ensures Lower("product") == "product" && Lower("Product") == "product"
  {
  }

  lemma FieldIsListed(model: Model, f: Field, gettext: string -> string)
    requires f in model.fields && IsForward(f)
    ensures ForwardEntryOf(f, gettext) in ForwardFields(model, gettext)
  {
  }

  /** "Stock code" is two words with one space: normalising keeps it. */
  lemma StockCodeIsNormal()
    ensures Normalize("Stock code") == "Stock code"
  {
    var words := ["Stock", "code"];
    assert IsWord(words[0]) && IsWord(words[1]);
    assert Join(words, " ") == "Stock code" by {
      assert words[1..] == ["code"];
    }
    JoinOfWordsIsNormal(words);
    NormalizeFixesExactlyNormal("Stock code");
  }

  /** `get_model_details("catalog", "product")` shows `sku` with its help
      text and `category` as a relation to "catalog.Category". */
  lemma ProductDetails(gettext: string -> string)
    ensures GetModelDetails(Shop, "catalog", "product", gettext).Success?
    ensures var fields := GetModelDetails(Shop, "catalog", "product", gettext).value.fields;
      && (exists f :: f in fields && f.name == "sku" && f.description == "Stock code")
      && (exists f :: f in fields && f.name == "category" && f.isRelation
                      && f.relatedTarget.value.fullLabel == "catalog.Category")
  {
    ProductIsFound(gettext);
    ProductHasNoReverse(gettext);
    DetailsShowField(Shop, "catalog", "product", Product, Sku, gettext);
    DetailsShowField(Shop, "catalog", "product", Product, CategoryLink, gettext);
    SkuEntry(gettext);
    CategoryEntry(gettext);
  }

  lemma ProductIsFound(gettext: string -> string)
    ensures FindModel(Shop, "catalog", "product", gettext) == Success(Product)
  {
    CatalogIsProjectApp(gettext);
    LowerProduct();
    assert NameMatches(Product, Lower("product"));
  }

  lemma ProductHasNoReverse(gettext: string -> string)
    ensures ReverseRelations(Product, gettext).Success?
  {
    assert !IsShownReverse(Id) && !IsShownReverse(Sku) && !IsShownReverse(CategoryLink);
  }

  /** Untranslated, `Category` lists one reverse relation: the accessor
      `product_set`, coming from field `category` of `catalog.Product`. */
  lemma CategoryReverse()
    ensures ReverseRelations(Category, Untranslated).Success?
    ensures var r := ReverseRelations(Category, Untranslated).value;
      && |r| == 1
      && r[0].name == "product_set"
      && r[0].sourceFieldName == "category"
      && r[0].sourceModelLabel == "catalog.Product"
  {
    ReverseRelationsUntranslated(Category);
    assert IsShownReverse(ProductsOfCategory) && !IsShownReverse(Id);
    assert ShownReverse(Category.fields) == [ProductsOfCategory];
    var r := ReverseRelations(Category, Untranslated).value;
    assert BuiltFrom(ProductsOfCategory, r[0], Untranslated);
  }

  /** A forward field of a found model with no failing reverse relation
      appears in the details. */
  lemma DetailsShowField(reg: Registry, appLabel: string, modelName: string, m: Model, f: Field,
                         gettext: string -> string)
    requires FindModel(reg, appLabel, modelName, gettext) == Success(m)
    requires ReverseRelations(m, gettext).Success?
    requires f in m.fields && IsForward(f)
    ensures GetModelDetails(reg, appLabel, modelName, gettext).Success?
    ensures ForwardEntryOf(f, gettext) in GetModelDetails(reg, appLabel, modelName, gettext).value.fields
  {
    FieldIsListed(m, f, gettext);
  }

  lemma SkuEntry(gettext: string -> string)
    ensures ForwardEntryOf(Sku, gettext).name == "sku"
    ensures ForwardEntryOf(Sku, gettext).description == "Stock code"
  {
    StockCodeIsNormal();
  }

  lemma CategoryEntry(gettext: string -> string)
    ensures ForwardEntryOf(CategoryLink, gettext).name == "category"
    ensures ForwardEntryOf(CategoryLink, gettext).isRelation
    ensures ForwardEntryOf(CategoryLink, gettext).relatedTarget.value.fullLabel == "catalog.Category"
  {
  }

  /** Asking for any label but the project app's fails with the "App not
      found" message naming it; this includes "vendor", the label of the
      app outside the root. */
  lemma UnknownAppNotFound(wanted: string)
    requires wanted != "catalog"
    ensures GetProjectApp(Shop, wanted, Untranslated) == Failure(Lookup("App not found: " + wanted))
  {
    VendorOutside();
    AppNotFoundMessage(wanted);
  }

  /** The generated docstring has three words and single spaces. */
  lemma GeneratedDocIsNormal()
    ensures Normalize(GeneratedDoc) == GeneratedDoc
  {
    var words := ["Product(id,", "sku,", "category)"];
    assert IsWord(words[0]) && IsWord(words[1]) && IsWord(words[2]);
    assert Join(words, " ") == GeneratedDoc by {
      assert words[1..] == ["sku,", "category)"];
      assert words[1..][1..] == ["category)"];
    }
    JoinOfWordsIsNormal(words);
    NormalizeFixesExactlyNormal(GeneratedDoc);
  }

  /** A model written without a docstring: the list view shows the
      docstring Django generated for it, while the detail view, which only
      reads a docstring declared on the class, shows the marker. */
  lemma ProductDescriptions(gettext: string -> string)
    ensures ModelDescription(Product, gettext) == GeneratedDoc
    ensures ModelDetailDescription(Product, gettext) == NoDescription(gettext)
    ensures ModelDetailDescription(Product, Untranslated) == "No description."
  {
    GeneratedDocIsNormal();
    assert Normalize("") == "";
    NoDescriptionUntranslated();
  }
}
