/**
 * `copy`: the defaults a duplicated location is created with. Unless the
 * caller already chose a name, the duplicate is named after the original
 * with the suffix " (copy)".
 */
module LocationCopy {

  const CopySuffix: string := " (copy)"

  /** The defaults `copy` hands on to the duplication of location `name`; an absent default is the empty map. */
  function CopyDefaults(name: string, defaults: map<string, string>): (r: map<string, string>)
    ensures r.Keys == defaults.Keys + {"name"}
    ensures forall k | k in defaults && k != "name" :: r[k] == defaults[k]
    ensures "name" in defaults ==> r["name"] == defaults["name"]
    ensures "name" !in defaults ==> r["name"] == name + CopySuffix
  {
    if "name" in defaults then defaults else defaults["name" := name + CopySuffix]
  }

  /** Without a caller's name, the duplicate's name differs from the original's and starts with it. */
  lemma CopyNameDiffers(name: string, defaults: map<string, string>)
    requires "name" !in defaults
    ensures CopyDefaults(name, defaults)["name"] != name
    ensures CopyDefaults(name, defaults)["name"][..|name|] == name
  {
    assert |CopyDefaults(name, defaults)["name"]| == |name| + |CopySuffix|;
  }
}
