/** generate_subclass_or_interface: look the class or interface up, select its
    methods, synthesise the substitution map and rewrite the template. */
module Generate {
  import opened Wrappers
  import opened Sequences
  import opened Text
  import opened Api
  import opened Compat
  import opened Render

  /** The params hash of a generation request; None is a key the caller left out. */
  datatype Params = Params(
    klass: Option<string>,
    iface: Option<string>,
    name: string,
    package: Option<string>,
    template: Option<string>,
    methodBase: Option<string>,
    methodInclude: Option<string>,
    methodExclude: Option<string>,
    implements: Option<string>,
    force: Option<bool>)

  /** The params once the defaults are merged under them and the package is filled in. */
  datatype Settings = Settings(
    target: string,
    name: string,
    package: string,
    template: string,
    methodBase: string,
    methodInclude: string,
    methodExclude: string,
    implements: string,
    force: bool)

  const DefaultTemplate := "InheritingClass"
  const DefaultMethodBase := "all"

  /** The lookup key: the class if given, otherwise the interface. */
  function TargetName(p: Params): string
    requires p.klass.Some? || p.iface.Some?
  {
    if p.klass.Some? then p.klass.value else p.iface.value
  }

  /** `defaults.merge(params)`, then the configured package when none was given. */
  function WithDefaults(p: Params, defaultPackage: string): Settings
    requires p.klass.Some? || p.iface.Some?
  {
    Settings(
      TargetName(p),
      p.name,
      p.package.GetOr(defaultPackage),
      p.template.GetOr(DefaultTemplate),
      p.methodBase.GetOr(DefaultMethodBase),
      p.methodInclude.GetOr(""),
      p.methodExclude.GetOr(""),
      p.implements.GetOr(""),
      p.force.GetOr(false))
  }

  /** A request that spells every key out. */
  function Spelled(s: Settings): Params {
    Params(Some(s.target), None, s.name, Some(s.package), Some(s.template), Some(s.methodBase),
      Some(s.methodInclude), Some(s.methodExclude), Some(s.implements), Some(s.force))
  }

  /** The caller's values win over the defaults: a request that gives every key
      is used as given, whatever the configured package. */
  lemma CallerValuesWin(s: Settings, defaultPackage: string)
    ensures WithDefaults(Spelled(s), defaultPackage) == s
  {
  }

  /** Left-out keys take the documented defaults. */
  lemma DefaultsFillGaps(p: Params, defaultPackage: string)
    requires p.klass.Some? || p.iface.Some?
    requires p.package.None? && p.template.None? && p.methodBase.None? && p.methodInclude.None?
    requires p.methodExclude.None? && p.implements.None? && p.force.None?
    ensures WithDefaults(p, defaultPackage)
      == Settings(TargetName(p), p.name, defaultPackage, "InheritingClass", "all", "", "", "", false)
  {
  }

  /** `methods.map(&:constant_string).uniq`. */
  function Constants(kept: seq<ApiMethod>): seq<string> {
    Uniq(seq(|kept|, k requires 0 <= k < |kept| => kept[k].constant))
  }

  /** One `public static final int C = i;` line per constant, i being `constants.index(C)`. */
  function ConstantDeclarations(constants: seq<string>): seq<string> {
    seq(|constants|, k requires 0 <= k < |constants| =>
      "public static final int " + constants[k] + " = " + DecimalString(IndexOf(constants, constants[k])) + ";")
  }

  /** The constants are the methods' constant names, each once, in order of first
      use, and the k-th is declared with value k. */
  lemma ConstantsDeclaredByPosition(kept: seq<ApiMethod>, k: nat)
    requires k < |Constants(kept)|
    ensures var cs := Constants(kept);
      && Distinct(cs)
      && (forall c :: c in cs <==> exists m :: m in kept && m.constant == c)
      && ConstantDeclarations(cs)[k]
         == "public static final int " + cs[k] + " = " + DecimalString(k) + ";"
  {
    var names := seq(|kept|, j requires 0 <= j < |kept| => kept[j].constant);
    var cs := Constants(kept);
    IndexOfDistinct(cs, k);
    forall c | c in cs ensures exists m :: m in kept && m.constant == c {
      var j :| 0 <= j < |names| && names[j] == c;
      assert kept[j] in kept;
    }
    forall m | m in kept ensures m.constant in cs {
      var j :| 0 <= j < |kept| && kept[j] == m;
      assert names[j] == m.constant;
    }
  }

  /** Constants are declared in the order their names are first used by the methods. */
  lemma ConstantsInFirstUseOrder(kept: seq<ApiMethod>, i: nat, j: nat)
    requires i < j < |Constants(kept)|
    ensures var names := seq(|kept|, k requires 0 <= k < |kept| => kept[k].constant);
      IndexOf(names, Constants(kept)[i]) < IndexOf(names, Constants(kept)[j])
  {
    UniqFirstOccurrenceOrder(seq(|kept|, k requires 0 <= k < |kept| => kept[k].constant), i, j);
  }

  /** The inheritance target: the class or interface name and, when `implements`
      is not empty, " implements " and its comma-separated names joined with ", ". */
  function AndroidClass(target: string, implements: string): (r: string)
    ensures target <= r
    ensures r == target <==> implements == ""
  {
    target + (if implements == "" then "" else " implements " + Join(RubySplit(implements, ","), ", "))
  }

  /** The implements clause is built from the fields of the split. */
  lemma AndroidClassFields(target: string, implements: string, fields: seq<string>)
    requires implements != "" && RubySplit(implements, ",") == fields
    ensures AndroidClass(target, implements) == target + " implements " + Join(fields, ", ")
  {
  }

  /** A list of interface names passed as `implements` comes out joined with ", ". */
  lemma AndroidClassLists(target: string, names: seq<string>)
    requires names != [] && names[|names| - 1] != []
    requires forall n :: n in names ==> ',' !in n
    ensures AndroidClass(target, Join(names, ",")) == target + " implements " + Join(names, ", ")
  {
    JoinHoldsLast(names, ",");
    RubySplitJoin(names, ',');
    AndroidClassFields(target, Join(names, ","), names);
  }

  /** The substitution map, in the order build_file applies it. */
  function SubstitutionMap(e: Element, s: Settings, kept: seq<ApiMethod>, constructors: seq<string>,
                           indent: seq<string> -> seq<string>): Substitutions
  {
    [("THE_PACKAGE", s.package),
     ("THE_ACTION", if e.kind == Class then "extends" else "implements"),
     ("THE_ANDROID_CLASS", AndroidClass(s.target, s.implements)),
     ("THE_RUBOTO_CLASS", s.name),
     ("THE_CONSTANTS", Join(indent(ConstantDeclarations(Constants(kept))), "\n")),
     ("CONSTANTS_COUNT", DecimalString(|kept|)),
     ("THE_CONSTRUCTORS", if e.kind == Class then Join(constructors, "\n\n") else ""),
     ("THE_METHODS", Join(seq(|kept|, k requires 0 <= k < |kept| => kept[k].definition), "\n\n"))]
  }

  /** What the substitution map promises: its keys in order, "extends" exactly for a
      class, no constructors for an interface, and a count that reads back as the
      number of retained methods (not the number of distinct constants). */
  lemma SubstitutionMapEntries(e: Element, s: Settings, kept: seq<ApiMethod>, constructors: seq<string>,
                               indent: seq<string> -> seq<string>)
    ensures var subs := SubstitutionMap(e, s, kept, constructors, indent);
      && |subs| == 8
      && [subs[0].0, subs[1].0, subs[2].0, subs[3].0, subs[4].0, subs[5].0, subs[6].0, subs[7].0]
         == ["THE_PACKAGE", "THE_ACTION", "THE_ANDROID_CLASS", "THE_RUBOTO_CLASS",
             "THE_CONSTANTS", "CONSTANTS_COUNT", "THE_CONSTRUCTORS", "THE_METHODS"]
      && (subs[1].1 == "extends" <==> e.kind == Class)
      && (subs[1].1 == "implements" <==> e.kind == Interface)
      && (e.kind == Interface ==> subs[6].1 == "")
      && IsDigits(subs[5].1) && DecimalValue(subs[5].1) == |kept|
  {
    DecimalRoundTrip(|kept|);
  }

  /** The outcome of one generation: the file written, its text, the methods
      generated and the lines check_methods printed. */
  datatype Generated = Generated(path: string, text: string, created: seq<ApiMethod>, notes: seq<Diagnostic>)

  /** generate_subclass_or_interface as a function of its collaborators. */
  function Generation(env: Env, p: Params): Result<Generated, Error> {
    if p.klass.None? && p.iface.None? then Err(NotFound("")) else
    var s := WithDefaults(p, env.defaultPackage);
    var e :- GetClassOrInterface(s.target, env.find(s.target), env.minSdk, env.targetSdk, s.force);
    var candidates := env.allMethods(e, MethodQuery(s.methodBase, s.methodInclude, s.methodExclude, s.implements));
    var sel :- CheckMethods(candidates, env.minSdk, env.targetSdk, s.force);
    var subs := SubstitutionMap(e, s, sel.kept, env.constructorDefinitions(e, s.name), env.indent);
    Ok(Generated(OutputPath(".", s.package, s.name), ApplyAll(env.template(s.template), subs), sel.kept, sel.notes))
  }

  /** Generation succeeds exactly when the class or interface passes its guard and
      its methods pass check_methods; an abort of either is the generation's error;
      on success the generated methods and the printed lines are check_methods'
      result, the file goes to ./src/<package path>/<name>.java and every generated
      method is usable over the whole min..target range (only at the target under
      force). */
  lemma GenerationOutcome(env: Env, p: Params)
    requires p.klass.Some? || p.iface.Some?
    ensures var s := WithDefaults(p, env.defaultPackage);
      var guard := GetClassOrInterface(s.target, env.find(s.target), env.minSdk, env.targetSdk, s.force);
      var r := Generation(env, p);
      && (guard.Err? ==> r == Err(guard.error))
      && (r.Ok? <==> guard.Ok? && CheckMethods(env.allMethods(guard.value,
            MethodQuery(s.methodBase, s.methodInclude, s.methodExclude, s.implements)),
            env.minSdk, env.targetSdk, s.force).Ok?)
      && (guard.Ok? ==>
            var cm := CheckMethods(env.allMethods(guard.value,
              MethodQuery(s.methodBase, s.methodInclude, s.methodExclude, s.implements)),
              env.minSdk, env.targetSdk, s.force);
            && (cm.Err? ==> r == Err(cm.error))
            && (cm.Ok? ==> r.value.created == cm.value.kept && r.value.notes == cm.value.notes))
      && (r.Ok? ==> r.value.path == OutputPath(".", s.package, s.name))
      && (r.Ok? ==> forall m :: m in r.value.created ==>
            AtMost(m.added, env.targetSdk) && Above(m.removed, env.targetSdk)
            && (!s.force ==> AtMost(m.added, env.minSdk) && Above(m.deprecated, env.targetSdk)))
  {
  }

  /** With neither a class nor an interface there is nothing to look up. */
  lemma GenerationWithoutTarget(env: Env, p: Params)
    requires p.klass.None? && p.iface.None?
    ensures Generation(env, p) == Err(NotFound(""))
  {
  }

  /** The default Activity generation: minimum 10, target 19, package org.ruboto,
      name RubotoActivity. Success writes ./src/org/ruboto/RubotoActivity.java with
      no method added after version 10. */
  lemma ActivityExample(env: Env, p: Params)
    requires env.minSdk == 10 && env.targetSdk == 19
    requires p.klass == Some("android.app.Activity") && p.name == "RubotoActivity"
    requires p.package == Some("org.ruboto") && p.force != Some(true)
    requires Generation(env, p).Ok?
    ensures Generation(env, p).value.path == "./src/org/ruboto/RubotoActivity.java"
    ensures forall m :: m in Generation(env, p).value.created ==> AtMost(m.added, 10)
  {
    GenerationOutcome(env, p);
    RubotoActivityPath("org.ruboto", "RubotoActivity");
  }

  /** The text of the same generation when android.app.Activity is a class and
      nothing is implemented: the template's package, action, class and name
      placeholders become org.ruboto, extends, android.app.Activity and
      RubotoActivity, and then the constants, count, constructors and methods are
      filled in. */
  lemma ActivityExampleText(env: Env, p: Params)
    requires p.klass == Some("android.app.Activity") && p.name == "RubotoActivity"
    requires p.package == Some("org.ruboto")
    requires p.implements == None || p.implements == Some("")
    requires env.find("android.app.Activity").Some? && env.find("android.app.Activity").value.kind == Class
    requires Generation(env, p).Ok?
    ensures var g := Generation(env, p).value;
      var e := env.find("android.app.Activity").value;
      var s := WithDefaults(p, env.defaultPackage);
      var header := [("THE_PACKAGE", "org.ruboto"), ("THE_ACTION", "extends"),
                     ("THE_ANDROID_CLASS", "android.app.Activity"), ("THE_RUBOTO_CLASS", "RubotoActivity")];
      g.text == ApplyAll(ApplyAll(env.template(s.template), header),
        SubstitutionMap(e, s, g.created, env.constructorDefinitions(e, "RubotoActivity"), env.indent)[4..])
  {
    var s := WithDefaults(p, env.defaultPackage);
    var e := env.find(s.target).value;
    var g := Generation(env, p).value;
    GeneratedText(env, p);
    var subs := SubstitutionMap(e, s, g.created, env.constructorDefinitions(e, s.name), env.indent);
    ActivityHeader(e, s, g.created, env.constructorDefinitions(e, s.name), env.indent);
    ApplyPrefixFirst(env.template(s.template), subs, 4);
  }

  /** The text generated is the template rewritten by the substitution map of the
      element found, the merged settings and the methods kept. */
  lemma GeneratedText(env: Env, p: Params)
    requires p.klass.Some? || p.iface.Some?
    requires Generation(env, p).Ok?
    ensures var s := WithDefaults(p, env.defaultPackage);
      var g := Generation(env, p).value;
      && env.find(s.target).Some?
      && var e := env.find(s.target).value;
         g.text == ApplyAll(env.template(s.template),
           SubstitutionMap(e, s, g.created, env.constructorDefinitions(e, s.name), env.indent))
  {
  }

  /** The first four entries of the map for RubotoActivity, a subclass of
      android.app.Activity in org.ruboto implementing nothing. */
  lemma ActivityHeader(e: Element, s: Settings, kept: seq<ApiMethod>, constructors: seq<string>,
                       indent: seq<string> -> seq<string>)
    requires e.kind == Class && s.implements == ""
    requires s.package == "org.ruboto" && s.target == "android.app.Activity" && s.name == "RubotoActivity"
    ensures SubstitutionMap(e, s, kept, constructors, indent)[..4]
      == [("THE_PACKAGE", "org.ruboto"), ("THE_ACTION", "extends"),
          ("THE_ANDROID_CLASS", "android.app.Activity"), ("THE_RUBOTO_CLASS", "RubotoActivity")]
  {
  }

  /** generate_subclass_or_interface, calling build_file for the rewriting. It computes
      the value `Generation` defines, and exists to run the substitution loop of `BuildFile`. */
  method GenerateSubclassOrInterface(env: Env, p: Params) returns (r: Result<Generated, Error>)
    ensures r == Generation(env, p)
  {
    if p.klass.None? && p.iface.None? {
      return Err(NotFound(""));
    }
    var s := WithDefaults(p, env.defaultPackage);
    var guard := GetClassOrInterface(s.target, env.find(s.target), env.minSdk, env.targetSdk, s.force);
    if guard.Err? {
      return Err(guard.error);
    }
    var e := guard.value;
    var candidates := env.allMethods(e, MethodQuery(s.methodBase, s.methodInclude, s.methodExclude, s.implements));
    var checked := CheckMethods(candidates, env.minSdk, env.targetSdk, s.force);
    if checked.Err? {
      return Err(checked.error);
    }
    var kept := checked.value.kept;
    var subs := SubstitutionMap(e, s, kept, env.constructorDefinitions(e, s.name), env.indent);
    var built := BuildFile(env.template(s.template), s.package, s.name, subs, ".");
    r := Ok(Generated(built.path, built.text, kept, checked.value.notes));
  }
}
