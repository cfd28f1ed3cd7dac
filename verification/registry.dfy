/** The part of Django's app and model registry the schema browser reads,
    as immutable values. Docstrings arrive already retrieved: a missing
    docstring is the empty text. */
module Registry {
  import opened Wrappers

  /** What `related_model._meta` offers: the model's app label, its
      lower-case `model_name` and its `label` ("app_label.ObjectName"), here `fullLabel`. */
  datatype ModelRef = ModelRef(appLabel: string, modelName: string, fullLabel: string)

  /** The forward field a reverse relation comes from (`relation.field`). */
  datatype OriginField = OriginField(name: string, helpText: string)

  /** One entry of `model._meta.get_fields()`: a forward field or a reverse
      relation object. */
  datatype Field = Field(
    name: string,
    autoCreated: bool,
    concrete: bool,
    isRelation: bool,
    relatedModel: Option<ModelRef>,    // None: absent, or not a resolved model class
    helpText: string,
    verboseName: string,
    internalType: Option<string>,      // get_internal_type(); None when missing or failing
    className: string,                 // field.__class__.__name__
    accessorName: Option<string>,      // get_accessor_name(); None when the object has none
    originField: Option<OriginField>)  // relation.field; None when absent

  datatype Model = Model(
    className: string,      // model.__name__
    modelName: string,      // _meta.model_name
    fullLabel: string,      // _meta.label
    appLabel: string,       // _meta.app_label
    dbTable: string,        // _meta.db_table
    verboseName: string,    // str(_meta.verbose_name)
    doc: string,            // inspect.getdoc(model): inherited docstrings and the one
                            // Django generates for a class without one included
    explicitDoc: string,    // the docstring written on the class itself
    fields: seq<Field>)     // _meta.get_fields(), in registry order

  datatype App = App(
    appLabel: string,           // app_config.label
    verboseName: string,
    name: string,               // the app's module name
    path: seq<string>,          // resolved filesystem path, as components
    configModule: string,       // module of the AppConfig subclass
    configDoc: string,          // that class's own __doc__
    packageModuleDoc: string,   // docstring of the app's package
    configModuleDoc: string,    // docstring of the AppConfig's module
    initFileDoc: string,        // docstring parsed from the package's __init__.py
    models: seq<Model>)         // get_models(), in registry order

  /** The registry together with the project root (`settings.BASE_DIR`). */
  datatype Registry = Registry(projectRoot: seq<string>, apps: seq<App>)
}
