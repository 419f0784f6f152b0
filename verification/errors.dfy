/** The loader's and unifier's error kinds; every one aborts the whole run. */
module Errors {
  import opened Results

  datatype Error =
      /** The resource file at `path` could not be opened. */
    | LocaleFileNotFound(path: string, cause: string)
      /** The resource file at `path` is not a map of keys to valid values. */
    | LocaleFileDeser(path: string, cause: string)
      /** `locale` lacks `keys` that another locale of the same group has. */
    | MissingKeysInLocale(namespace: Option<string>, keys: set<string>, locale: string)
      /** `localeKey` is given plural selectors of different taxonomies. */
    | PluralTypeMissmatch(localeKey: string, namespace: Option<string>)
}
