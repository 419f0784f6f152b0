/**
 * Loading the locale resources: `LocaleSeed::visit_map`, `Locale::new`,
 * `Namespace::new` and `LocalesOrNamespaces::new`.
 *
 * Opening a file and the JSON deserializer are outside the model: the file
 * system is a function from a path to what opening it yields, and a file's
 * content is the sequence of items the deserializer's map access hands to the
 * visitor. The value parser is a function from a raw value and the
 * "inside a plural" flag to a parsed value or an error.
 */
module LocaleLoading {
  import opened Results
  import opened ParsedValues
  import opened Errors
  import opened LocaleData
  import LocaleCheck

  /** One step of the deserializer's map access: a key with its raw value, or a syntax error. */
  datatype MapItem = Entry(key: string, raw: string) | Malformed(cause: string)

  /** A resource file's content: a JSON map, or something the map visitor rejects. */
  datatype Document = JsonMap(items: seq<MapItem>) | NotAMap(cause: string)

  /** What opening a path yields. */
  datatype Opened = NotFound(cause: string) | Found(doc: Document)

  type FileSystem = string -> Opened

  type ValueParser = (string, bool) -> Result<ParsedValue, string>

  /** The configuration the loader consumes: locales, optional namespaces, resource directory. */
  datatype ConfigFile = ConfigFile(locales: seq<string>, nameSpaces: Option<seq<string>>, localesDir: string)

  /** `{dir}/{locale}/{namespace}.json` */
  function NamespacedPath(dir: string, locale: string, namespace: string): string
  {
    dir + "/" + locale + "/" + namespace + ".json"
  }

  /** `{dir}/{locale}.json` */
  function FlatPath(dir: string, locale: string): string
  {
    dir + "/" + locale + ".json"
  }

  // ---------------------------------------------------------------------------
  // The entry fold

  /** The item stops the fold: a syntax error, or a value the parser rejects. */
  predicate ItemFails(item: MapItem, parse: ValueParser)
  {
    item.Malformed? || parse(item.raw, false).Failure?
  }

  /** The error a failing item reports. */
  function ItemCause(item: MapItem, parse: ValueParser): string
    requires ItemFails(item, parse)
  {
    if item.Malformed? then item.cause else parse(item.raw, false).error
  }

  /** What `visit_map` builds from the items read so far. */
  function Entries(items: seq<MapItem>, parse: ValueParser): Result<map<string, ParsedValue>, string>
  {
    if items == [] then Success(map[])
    else
      match Entries(items[..|items| - 1], parse)
      case Failure(e) => Failure(e)
      case Success(m) =>
        var item := items[|items| - 1];
        if ItemFails(item, parse) then Failure(ItemCause(item, parse))
        else Success(m[item.key := parse(item.raw, false).value])
  }

  /** A failure of the fold over a prefix is the failure of the whole fold. */
  lemma {:induction false} EntriesFailureSticks(items: seq<MapItem>, parse: ValueParser, n: nat)
    requires n <= |items|
    requires Entries(items[..n], parse).Failure?
    ensures Entries(items, parse) == Entries(items[..n], parse)
  {
    if n < |items| {
      var init := items[..|items| - 1];
      assert init[..n] == items[..n];
      EntriesFailureSticks(init, parse, n);
    } else {
      assert items[..n] == items;
    }
  }

  /**
   * `LocaleSeed::visit_map`: reads the items in order, parses every value
   * with the "inside a plural" flag off and inserts it under its key; the
   * first error aborts.
   */
  method VisitMap(items: seq<MapItem>, parse: ValueParser) returns (r: Result<map<string, ParsedValue>, string>)
    ensures r == Entries(items, parse)
  {
    var keys := map[];
    var i := 0;
    while i < |items|
      invariant 0 <= i <= |items|
      invariant Entries(items[..i], parse) == Success(keys)
    {
      assert items[..i + 1][..i] == items[..i];
      match items[i]
      case Malformed(cause) =>
        EntriesFailureSticks(items, parse, i + 1);
        return Failure(cause);
      case Entry(localeKey, raw) =>
        var value := parse(raw, false);
        if value.Failure? {
          EntriesFailureSticks(items, parse, i + 1);
          return Failure(value.error);
        }
        keys := keys[localeKey := value.value];
      i := i + 1;
    }
    assert items[..i] == items;
    r := Success(keys);
  }

  /** The first `n` items contain no failing item. */
  predicate NoFailureBefore(items: seq<MapItem>, parse: ValueParser, n: nat)
    requires n <= |items|
  {
    forall i :: 0 <= i < n ==> !ItemFails(items[i], parse)
  }

  /** No item after index `i` carries the same key as item `i`. */
  predicate LastWithKey(items: seq<MapItem>, i: nat)
    requires i < |items| && items[i].Entry?
  {
    forall j :: i < j < |items| && items[j].Entry? ==> items[j].key != items[i].key
  }

  /**
   * The fold fails exactly when some item fails, and then with the error of
   * the first failing item.
   */
  lemma {:induction false} EntriesFailure(items: seq<MapItem>, parse: ValueParser)
    ensures Entries(items, parse).Success? <==> NoFailureBefore(items, parse, |items|)
    ensures forall i :: 0 <= i < |items| && NoFailureBefore(items, parse, i) && ItemFails(items[i], parse) ==>
              Entries(items, parse) == Failure(ItemCause(items[i], parse))
  {
    if items != [] {
      var init := items[..|items| - 1];
      EntriesFailure(init, parse);
      forall i | 0 <= i < |items| && NoFailureBefore(items, parse, i) && ItemFails(items[i], parse)
        ensures Entries(items, parse) == Failure(ItemCause(items[i], parse))
      {
        if i < |items| - 1 {
          assert init[i] == items[i];
          assert NoFailureBefore(init, parse, i);
        } else {
          assert NoFailureBefore(init, parse, |init|);
        }
      }
      if !NoFailureBefore(init, parse, |init|) {
        var i :| 0 <= i < |init| && ItemFails(init[i], parse);
        assert ItemFails(items[i], parse);
      }
    }
  }

  /** A successful fold keeps every key read and nothing else. */
  lemma {:induction false} EntriesKeys(items: seq<MapItem>, parse: ValueParser)
    requires Entries(items, parse).Success?
    ensures forall k :: k in Entries(items, parse).value <==>
              exists i :: 0 <= i < |items| && items[i].Entry? && items[i].key == k
  {
    if items != [] {
      var init := items[..|items| - 1];
      var last := items[|items| - 1];
      EntriesKeys(init, parse);
      var m := Entries(items, parse).value;
      forall k | k in m ensures exists i :: 0 <= i < |items| && items[i].Entry? && items[i].key == k {
        if k != last.key {
          var i :| 0 <= i < |init| && init[i].Entry? && init[i].key == k;
          assert items[i] == init[i];
        }
      }
      forall k | exists i :: 0 <= i < |items| && items[i].Entry? && items[i].key == k
        ensures k in m
      {
        var i :| 0 <= i < |items| && items[i].Entry? && items[i].key == k;
        if i < |items| - 1 {
          assert init[i] == items[i];
        }
      }
    }
  }

  /**
   * In a successful fold every value was parsed with the "inside a plural"
   * flag off, and a key read several times holds the value parsed from its
   * last occurrence.
   */
  lemma {:induction false} EntriesLastWins(items: seq<MapItem>, parse: ValueParser)
    requires Entries(items, parse).Success?
    ensures forall i :: 0 <= i < |items| ==> !ItemFails(items[i], parse)
    ensures forall i :: 0 <= i < |items| && items[i].Entry? && LastWithKey(items, i) ==>
              && items[i].key in Entries(items, parse).value
              && parse(items[i].raw, false) == Success(Entries(items, parse).value[items[i].key])
  {
    EntriesFailure(items, parse);
    if items != [] {
      var init := items[..|items| - 1];
      EntriesLastWins(init, parse);
      var m := Entries(items, parse).value;
      forall i | 0 <= i < |items| && items[i].Entry? && LastWithKey(items, i)
        ensures items[i].key in m && parse(items[i].raw, false) == Success(m[items[i].key])
      {
        if i < |items| - 1 {
          assert items[i] == init[i];
          assert LastWithKey(init, i);
        }
      }
    }
  }

  // ---------------------------------------------------------------------------
  // One locale

  /** What `Locale::new` yields for `path`. */
  function OpenLocale(path: string, locale: string, fs: FileSystem, parse: ValueParser): Result<Locale, Error>
  {
    match fs(path)
    case NotFound(cause) => Failure(LocaleFileNotFound(path, cause))
    case Found(NotAMap(cause)) => Failure(LocaleFileDeser(path, cause))
    case Found(JsonMap(items)) =>
      match Entries(items, parse)
      case Failure(cause) => Failure(LocaleFileDeser(path, cause))
      case Success(keys) => Success(Locale(locale, keys))
  }

  /**
   * Loading one locale: a file that cannot be opened is `LocaleFileNotFound`,
   * content that does not fold into a map is `LocaleFileDeser`, both carrying
   * the path; otherwise the locale has the given name and its keys are
   * exactly the keys the file holds.
   */
  lemma OpenLocaleOutcome(path: string, locale: string, fs: FileSystem, parse: ValueParser)
    ensures OpenLocale(path, locale, fs, parse).Failure? ==>
              var e := OpenLocale(path, locale, fs, parse).error;
              && (e.LocaleFileNotFound? || e.LocaleFileDeser?)
              && e.path == path
              && (e.LocaleFileNotFound? <==> fs(path).NotFound?)
    ensures OpenLocale(path, locale, fs, parse).Success? ==>
              var l := OpenLocale(path, locale, fs, parse).value;
              && l.name == locale
              && fs(path).Found? && fs(path).doc.JsonMap?
              && (forall k :: k in l.GetKeys() <==>
                    exists i :: 0 <= i < |fs(path).doc.items| && fs(path).doc.items[i].Entry? && fs(path).doc.items[i].key == k)
  {
    if OpenLocale(path, locale, fs, parse).Success? {
      EntriesKeys(fs(path).doc.items, parse);
    }
  }

  /** `Locale::new`: opens the file and folds its entries. */
  method LocaleNew(path: string, locale: string, fs: FileSystem, parse: ValueParser) returns (r: Result<Locale, Error>)
    ensures r == OpenLocale(path, locale, fs, parse)
  {
    match fs(path)
    case NotFound(cause) =>
      return Failure(LocaleFileNotFound(path, cause));
    case Found(doc) =>
      if doc.NotAMap? {
        return Failure(LocaleFileDeser(path, doc.cause));
      }
      var keys := VisitMap(doc.items, parse);
      if keys.Failure? {
        return Failure(LocaleFileDeser(path, keys.error));
      }
      r := Success(Locale(locale, keys.value));
  }

  // ---------------------------------------------------------------------------
  // Collecting several loads, stopping at the first error

  /** The values of a sequence of results, or the error of the first failure. */
  function CollectResults<T>(rs: seq<Result<T, Error>>): Result<seq<T>, Error>
  {
    if rs == [] then Success([])
    else
      match CollectResults(rs[..|rs| - 1])
      case Failure(e) => Failure(e)
      case Success(vs) =>
        match rs[|rs| - 1]
        case Failure(e) => Failure(e)
        case Success(v) => Success(vs + [v])
  }

  /** A failure among the first `n` results is the failure of the whole collection. */
  lemma {:induction false} CollectFailureSticks<T>(rs: seq<Result<T, Error>>, n: nat)
    requires n <= |rs|
    requires CollectResults(rs[..n]).Failure?
    ensures CollectResults(rs) == CollectResults(rs[..n])
  {
    if n < |rs| {
      var init := rs[..|rs| - 1];
      assert init[..n] == rs[..n];
      CollectFailureSticks(init, n);
    } else {
      assert rs[..n] == rs;
    }
  }

  /**
   * Collecting succeeds exactly when every result does, keeping their values
   * in order; otherwise it fails with the first failure.
   */
  lemma {:induction false} CollectOutcome<T>(rs: seq<Result<T, Error>>)
    ensures CollectResults(rs).Success? <==> forall i :: 0 <= i < |rs| ==> rs[i].Success?
    ensures CollectResults(rs).Success? ==>
              |CollectResults(rs).value| == |rs| &&
              forall i :: 0 <= i < |rs| ==> CollectResults(rs).value[i] == rs[i].value
    ensures forall i :: 0 <= i < |rs| && rs[i].Failure? && (forall j :: 0 <= j < i ==> rs[j].Success?) ==>
              CollectResults(rs) == Failure(rs[i].error)
  {
    if rs != [] {
      var init := rs[..|rs| - 1];
      CollectOutcome(init);
      forall i | 0 <= i < |rs| && rs[i].Failure? && (forall j :: 0 <= j < i ==> rs[j].Success?)
        ensures CollectResults(rs) == Failure(rs[i].error)
      {
        if i < |rs| - 1 {
          assert init[i] == rs[i];
        } else {
          assert forall j :: 0 <= j < |init| ==> init[j].Success?;
        }
      }
      if !(forall i :: 0 <= i < |init| ==> init[i].Success?) {
        var i :| 0 <= i < |init| && !init[i].Success?;
        assert !rs[i].Success?;
      }
    }
  }

  // ---------------------------------------------------------------------------
  // Namespaces and the whole configuration

  /** The locale loads of one namespace, one per configured locale, in order. */
  function NamespaceLoads(dir: string, namespace: string, localeKeys: seq<string>, fs: FileSystem, parse: ValueParser)
    : seq<Result<Locale, Error>>
  {
    seq(|localeKeys|, i requires 0 <= i < |localeKeys| =>
      OpenLocale(NamespacedPath(dir, localeKeys[i], namespace), localeKeys[i], fs, parse))
  }

  /** What `Namespace::new` yields. */
  function LoadNamespace(dir: string, namespace: string, localeKeys: seq<string>, fs: FileSystem, parse: ValueParser)
    : Result<Namespace, Error>
  {
    match CollectResults(NamespaceLoads(dir, namespace, localeKeys, fs, parse))
    case Failure(e) => Failure(e)
    case Success(locales) => Success(Namespace(namespace, locales))
  }

  /** `Namespace::new`: loads `{dir}/{locale}/{namespace}.json` for every locale. */
  method NamespaceNew(localesDir: string, key: string, localeKeys: seq<string>, fs: FileSystem, parse: ValueParser)
    returns (r: Result<Namespace, Error>)
    ensures r == LoadNamespace(localesDir, key, localeKeys, fs, parse)
  {
    ghost var loads := NamespaceLoads(localesDir, key, localeKeys, fs, parse);
    var locales := [];
    for i := 0 to |localeKeys|
      invariant CollectResults(loads[..i]) == Success(locales)
    {
      assert loads[..i + 1][..i] == loads[..i];
      var path := NamespacedPath(localesDir, localeKeys[i], key);
      var locale := LocaleNew(path, localeKeys[i], fs, parse);
      if locale.Failure? {
        CollectFailureSticks(loads, i + 1);
        return Failure(locale.error);
      }
      locales := locales + [locale.value];
    }
    assert loads[..|localeKeys|] == loads;
    r := Success(Namespace(key, locales));
  }

  /** The locale loads without namespaces, one per configured locale, in order. */
  function FlatLoads(dir: string, localeKeys: seq<string>, fs: FileSystem, parse: ValueParser): seq<Result<Locale, Error>>
  {
    seq(|localeKeys|, i requires 0 <= i < |localeKeys| =>
      OpenLocale(FlatPath(dir, localeKeys[i]), localeKeys[i], fs, parse))
  }

  /** The namespace loads, one per configured namespace, in order. */
  function NamespacesLoads(cfg: ConfigFile, namespaceKeys: seq<string>, fs: FileSystem, parse: ValueParser)
    : seq<Result<Namespace, Error>>
  {
    seq(|namespaceKeys|, i requires 0 <= i < |namespaceKeys| =>
      LoadNamespace(cfg.localesDir, namespaceKeys[i], cfg.locales, fs, parse))
  }

  /** What `LocalesOrNamespaces::new` yields. */
  function LoadLocalesOrNamespaces(cfg: ConfigFile, fs: FileSystem, parse: ValueParser): Result<LocalesOrNamespaces, Error>
  {
    match cfg.nameSpaces
    case Some(namespaceKeys) =>
      (match CollectResults(NamespacesLoads(cfg, namespaceKeys, fs, parse))
       case Failure(e) => Failure(e)
       case Success(namespaces) => Success(NameSpaces(namespaces)))
    case None =>
      (match CollectResults(FlatLoads(cfg.localesDir, cfg.locales, fs, parse))
       case Failure(e) => Failure(e)
       case Success(locales) => Success(Locales(locales)))
  }

  /**
   * `LocalesOrNamespaces::new`: one namespace per configured namespace when
   * namespaces are configured, otherwise one locale per configured locale from
   * `{dir}/{locale}.json`.
   */
  method LocalesOrNamespacesNew(cfg: ConfigFile, fs: FileSystem, parse: ValueParser)
    returns (r: Result<LocalesOrNamespaces, Error>)
    ensures r == LoadLocalesOrNamespaces(cfg, fs, parse)
  {
    var localeKeys := cfg.locales;
    var localesDir := cfg.localesDir;
    if cfg.nameSpaces.Some? {
      var namespaceKeys := cfg.nameSpaces.value;
      ghost var loads := NamespacesLoads(cfg, namespaceKeys, fs, parse);
      var namespaces := [];
      for i := 0 to |namespaceKeys|
        invariant CollectResults(loads[..i]) == Success(namespaces)
      {
        assert loads[..i + 1][..i] == loads[..i];
        var namespace := NamespaceNew(localesDir, namespaceKeys[i], localeKeys, fs, parse);
        if namespace.Failure? {
          CollectFailureSticks(loads, i + 1);
          return Failure(namespace.error);
        }
        namespaces := namespaces + [namespace.value];
      }
      assert loads[..|namespaceKeys|] == loads;
      r := Success(NameSpaces(namespaces));
    } else {
      ghost var loads := FlatLoads(localesDir, localeKeys, fs, parse);
      var locales := [];
      for i := 0 to |localeKeys|
        invariant CollectResults(loads[..i]) == Success(locales)
      {
        assert loads[..i + 1][..i] == loads[..i];
        var path := FlatPath(localesDir, localeKeys[i]);
        var locale := LocaleNew(path, localeKeys[i], fs, parse);
        if locale.Failure? {
          CollectFailureSticks(loads, i + 1);
          return Failure(locale.error);
        }
        locales := locales + [locale.value];
      }
      assert loads[..|localeKeys|] == loads;
      r := Success(Locales(locales));
    }
  }

  // ---------------------------------------------------------------------------
  // Properties of the loaders

  /**
   * A namespace loads one locale per configured locale, in configuration
   * order, each from `{dir}/{locale}/{namespace}.json` and named after its
   * locale; the first locale that fails to load decides the error.
   */
  lemma LoadNamespaceOutcome(dir: string, namespace: string, localeKeys: seq<string>, fs: FileSystem, parse: ValueParser)
    ensures LoadNamespace(dir, namespace, localeKeys, fs, parse).Success? <==>
              forall i :: 0 <= i < |localeKeys| ==>
                OpenLocale(NamespacedPath(dir, localeKeys[i], namespace), localeKeys[i], fs, parse).Success?
    ensures LoadNamespace(dir, namespace, localeKeys, fs, parse).Success? ==>
              var n := LoadNamespace(dir, namespace, localeKeys, fs, parse).value;
              && n.key == namespace
              && |n.locales| == |localeKeys|
              && forall i :: 0 <= i < |localeKeys| ==>
                   && n.locales[i] == OpenLocale(NamespacedPath(dir, localeKeys[i], namespace), localeKeys[i], fs, parse).value
                   && n.locales[i].name == localeKeys[i]
    ensures forall i ::
              (&& 0 <= i < |localeKeys|
               && OpenLocale(NamespacedPath(dir, localeKeys[i], namespace), localeKeys[i], fs, parse).Failure?
               && forall j :: 0 <= j < i ==>
                    OpenLocale(NamespacedPath(dir, localeKeys[j], namespace), localeKeys[j], fs, parse).Success?) ==>
              LoadNamespace(dir, namespace, localeKeys, fs, parse) ==
                Failure(OpenLocale(NamespacedPath(dir, localeKeys[i], namespace), localeKeys[i], fs, parse).error)
  {
    var loads := NamespaceLoads(dir, namespace, localeKeys, fs, parse);
    assert forall i :: 0 <= i < |localeKeys| ==>
             loads[i] == OpenLocale(NamespacedPath(dir, localeKeys[i], namespace), localeKeys[i], fs, parse);
    CollectOutcome(loads);
    forall i | 0 <= i < |localeKeys|
      ensures OpenLocale(NamespacedPath(dir, localeKeys[i], namespace), localeKeys[i], fs, parse).Success? ==>
                OpenLocale(NamespacedPath(dir, localeKeys[i], namespace), localeKeys[i], fs, parse).value.name == localeKeys[i]
    {
      OpenLocaleOutcome(NamespacedPath(dir, localeKeys[i], namespace), localeKeys[i], fs, parse);
    }
  }

  /**
   * Without namespaces, one locale is loaded per configured locale, in
   * configuration order, each from `{dir}/{locale}.json`; with namespaces,
   * one namespace per configured namespace, in order. The first load that
   * fails decides the error.
   */
  lemma LoadLocalesOrNamespacesOutcome(cfg: ConfigFile, fs: FileSystem, parse: ValueParser)
    ensures cfg.nameSpaces.None? ==>
              var r := LoadLocalesOrNamespaces(cfg, fs, parse);
              && (r.Success? <==> forall i :: 0 <= i < |cfg.locales| ==>
                    OpenLocale(FlatPath(cfg.localesDir, cfg.locales[i]), cfg.locales[i], fs, parse).Success?)
              && (r.Success? ==>
                    && r.value.Locales?
                    && |r.value.locales| == |cfg.locales|
                    && forall i :: 0 <= i < |cfg.locales| ==>
                         && r.value.locales[i] == OpenLocale(FlatPath(cfg.localesDir, cfg.locales[i]), cfg.locales[i], fs, parse).value
                         && r.value.locales[i].name == cfg.locales[i])
              && (forall i ::
                    (&& 0 <= i < |cfg.locales|
                     && OpenLocale(FlatPath(cfg.localesDir, cfg.locales[i]), cfg.locales[i], fs, parse).Failure?
                     && forall j :: 0 <= j < i ==>
                          OpenLocale(FlatPath(cfg.localesDir, cfg.locales[j]), cfg.locales[j], fs, parse).Success?) ==>
                    r == Failure(OpenLocale(FlatPath(cfg.localesDir, cfg.locales[i]), cfg.locales[i], fs, parse).error))
    ensures cfg.nameSpaces.Some? ==>
              var r := LoadLocalesOrNamespaces(cfg, fs, parse);
              var nks := cfg.nameSpaces.value;
              && (r.Success? <==> forall i :: 0 <= i < |nks| ==>
                    LoadNamespace(cfg.localesDir, nks[i], cfg.locales, fs, parse).Success?)
              && (r.Success? ==>
                    && r.value.NameSpaces?
                    && |r.value.namespaces| == |nks|
                    && forall i :: 0 <= i < |nks| ==>
                         r.value.namespaces[i] == LoadNamespace(cfg.localesDir, nks[i], cfg.locales, fs, parse).value)
              && (forall i ::
                    (&& 0 <= i < |nks|
                     && LoadNamespace(cfg.localesDir, nks[i], cfg.locales, fs, parse).Failure?
                     && forall j :: 0 <= j < i ==> LoadNamespace(cfg.localesDir, nks[j], cfg.locales, fs, parse).Success?) ==>
                    r == Failure(LoadNamespace(cfg.localesDir, nks[i], cfg.locales, fs, parse).error))
  {
    if cfg.nameSpaces.Some? {
      var nks := cfg.nameSpaces.value;
      var loads := NamespacesLoads(cfg, nks, fs, parse);
      assert forall i :: 0 <= i < |nks| ==> loads[i] == LoadNamespace(cfg.localesDir, nks[i], cfg.locales, fs, parse);
      CollectOutcome(loads);
    } else {
      var loads := FlatLoads(cfg.localesDir, cfg.locales, fs, parse);
      assert forall i :: 0 <= i < |cfg.locales| ==>
               loads[i] == OpenLocale(FlatPath(cfg.localesDir, cfg.locales[i]), cfg.locales[i], fs, parse);
      CollectOutcome(loads);
      forall i | 0 <= i < |cfg.locales|
        ensures OpenLocale(FlatPath(cfg.localesDir, cfg.locales[i]), cfg.locales[i], fs, parse).Success? ==>
                  OpenLocale(FlatPath(cfg.localesDir, cfg.locales[i]), cfg.locales[i], fs, parse).value.name == cfg.locales[i]
      {
        OpenLocaleOutcome(FlatPath(cfg.localesDir, cfg.locales[i]), cfg.locales[i], fs, parse);
      }
    }
  }

  /**
   * With at least one configured locale, whatever the loader produces is a
   * valid input for `check_locales`: no group is empty.
   */
  lemma LoadedInputIsCheckable(cfg: ConfigFile, fs: FileSystem, parse: ValueParser)
    requires 0 < |cfg.locales|
    requires LoadLocalesOrNamespaces(cfg, fs, parse).Success?
    ensures LocaleCheck.Checkable(LoadLocalesOrNamespaces(cfg, fs, parse).value)
  {
    LoadLocalesOrNamespacesOutcome(cfg, fs, parse);
    var input := LoadLocalesOrNamespaces(cfg, fs, parse).value;
    if cfg.nameSpaces.Some? {
      var nks := cfg.nameSpaces.value;
      forall n | n in input.namespaces ensures 0 < |n.locales| {
        var i :| 0 <= i < |input.namespaces| && input.namespaces[i] == n;
        LoadNamespaceOutcome(cfg.localesDir, nks[i], cfg.locales, fs, parse);
      }
    }
  }
}
