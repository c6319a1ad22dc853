/** The two file-name filters: the Java suffix match and the Kotlin `File.extension` match. */
module Filters {

  /** `String.endsWith`: case-sensitive, character by character. */
  predicate EndsWith(s: string, t: string) {
    |t| <= |s| && s[|s| - |t|..] == t
  }

  /** The Java `FileFilter` test on a name: it ends with one of the configured types. */
  predicate SuffixMatch(types: set<string>, name: string) {
    exists t :: t in types && EndsWith(name, t)
  }

  /** With no configured types, no name passes the suffix filter. */
  lemma NoTypesNoMatch(name: string)
    ensures !SuffixMatch({}, name)
  {
  }

  /** Position of the last '.' in `s`, or -1 when there is none. */
  function LastDot(s: string): (i: int)
    ensures -1 <= i < |s|
    ensures i >= 0 ==> s[i] == '.'
    ensures forall j :: i < j < |s| ==> s[j] != '.'
  {
    if s == [] then -1
    else if s[|s| - 1] == '.' then |s| - 1
    else LastDot(s[..|s| - 1])
  }

  /** Kotlin `File.extension`: the text after the last '.', or "" when there is no '.';
      a name ending in '.' also has the empty extension. */
  function Extension(name: string): (e: string)
    ensures '.' !in e
    ensures EndsWith(name, e)
    ensures '.' in name ==> |e| < |name| && name[|name| - |e| - 1] == '.'
    ensures '.' !in name ==> e == ""
    ensures e == "" <==> '.' !in name || (|name| > 0 && name[|name| - 1] == '.')
  {
    var i := LastDot(name);
    if i < 0 then "" else name[i + 1..]
  }

  /** The Kotlin filter on a name: its extension is one of the configured types. */
  predicate ExtensionMatch(types: set<string>, name: string) {
    Extension(name) in types
  }

  /** A configured type that contains a '.', such as ".jpg", never equals an extension. */
  lemma DottedTypesNeverMatch(types: set<string>, name: string)
    requires forall t :: t in types ==> '.' in t
    ensures !ExtensionMatch(types, name)
  {
  }
}
