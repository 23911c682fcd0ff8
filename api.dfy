/** The facts the generator reads from the API description, and the collaborators
    it calls but that are not part of this model. */
module Api {
  import opened Wrappers

  /** An optional version attribute (`api_added`, `deprecated`, `api_removed`)
      is at most `v`, or absent. */
  predicate AtMost(attr: Option<int>, v: int) {
    attr.None? || attr.value <= v
  }

  /** An optional version attribute is above `v`, or absent. */
  predicate Above(attr: Option<int>, v: int) {
    attr.None? || attr.value > v
  }

  /** A method of the API description. Its signature, constant name and definition
      text come from the description's wrapper and are opaque here. */
  datatype ApiMethod = ApiMethod(
    signature: string,
    constant: string,
    definition: string,
    added: Option<int>,
    deprecated: Option<int>,
    removed: Option<int>)

  /** The tag of a looked-up element: `class` or `interface`. */
  datatype Kind = Class | Interface

  /** A class or interface of the API description with its version attributes. */
  datatype Element = Element(
    kind: Kind,
    added: Option<int>,
    deprecated: Option<int>,
    removed: Option<int>)

  /** One line that check_methods prints about a method it drops. */
  datatype Diagnostic =
    | RemovedIn(m: ApiMethod)       // removed at or before the target version
    | AddedIn(m: ApiMethod)         // added after the minimum version
    | DeprecatedIn(m: ApiMethod)    // deprecated at or before the target version

  /** The reasons generation aborts. */
  datatype Error =
    | NotFound(klass: string)
    | NotInMinSdk(klass: string, added: int)
    | DeprecatedForTarget(klass: string, deprecated: int)
    | RemovedForTarget(klass: string, removed: int)
    | Aborting(notes: seq<Diagnostic>)

  /** The arguments of `all_methods(method_base, method_include, method_exclude, implements)`. */
  datatype MethodQuery = MethodQuery(methodBase: string, methodInclude: string, methodExclude: string, implements: string)

  /** Everything generation takes from outside the model: the API lookup, the
      method listing, constructor definitions, Array#indent, the template assets,
      and the configured package and SDK versions. */
  datatype Env = Env(
    find: string -> Option<Element>,
    allMethods: (Element, MethodQuery) -> seq<ApiMethod>,
    constructorDefinitions: (Element, string) -> seq<string>,
    indent: seq<string> -> seq<string>,
    template: string -> string,
    defaultPackage: string,
    minSdk: int,
    targetSdk: int)
}
