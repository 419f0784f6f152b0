/** The values the loader builds and the unifier produces. */
module LocaleData {
  import opened Results
  import opened ParsedValues

  /** One locale's (or one locale-and-namespace's) translations. */
  datatype Locale = Locale(name: string, keys: map<string, ParsedValue>)
  {
    /**
     * `Locale::get_keys`: the translation keys this locale defines, one per
     * entry of its map, and no other.
     */
    function GetKeys(): (ks: set<string>)
      ensures forall k :: k in ks <==> k in keys
      ensures |ks| == |keys|
    {
      keys.Keys
    }
  }

  /** The locales of one namespace, in configuration order. */
  datatype Namespace = Namespace(key: string, locales: seq<Locale>)

  datatype LocalesOrNamespaces =
    | NameSpaces(namespaces: seq<Namespace>)
    | Locales(locales: seq<Locale>)

  /** The inferred type of one translation key. */
  datatype LocaleValue =
    | String
    | Builder(keys: set<InterpolateKey>)
  {
    /** The accumulator this classification was made from. */
    function Keys(): Option<set<InterpolateKey>>
    {
      match this
      case String => None
      case Builder(keys) => Some(keys)
    }
  }

  /**
   * `LocaleValue::new`: a key with no interpolation accumulator is a plain
   * string; any accumulator, even an empty one, makes it a builder.
   */
  function NewLocaleValue(value: Option<set<InterpolateKey>>): (lv: LocaleValue)
    ensures lv.String? <==> value.None?
    ensures lv.Keys() == value
  {
    match value
    case Some(keys) => Builder(keys)
    case None => String
  }

  /** Classification loses nothing: a locale value is rebuilt from its accumulator. */
  lemma ClassificationRoundTrip(lv: LocaleValue)
    ensures NewLocaleValue(lv.Keys()) == lv
  {
  }

  type BuildersKeysInner = map<string, LocaleValue>

  datatype BuildersKeys =
    | NameSpacesKeys(namespaces: seq<Namespace>, namespaceKeys: map<string, BuildersKeysInner>)
    | LocalesKeys(locales: seq<Locale>, keys: BuildersKeysInner)
}
