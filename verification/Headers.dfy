/** `http.Header` with lower-case names, and the names of the record batch headers. */
module Headers {
  type bytes = seq<bv8>

  type Header = map<string, seq<string>>

  const PREFIX := "x-reduct-"
  const ERROR_PREFIX := "x-reduct-error-"
  const ENTRIES := "x-reduct-entries"
  const START_TS := "x-reduct-start-ts"
  const LABELS := "x-reduct-labels"
  const LAST := "x-reduct-last"
  const CONTENT_TYPE := "content-type"
  const CONTENT_LENGTH := "content-length"
  const OCTET_STREAM := "application/octet-stream"

  /** Header.Get: the first value, or the empty string. */
  function Get(h: Header, name: string): string {
    if name in h && h[name] != [] then h[name][0] else ""
  }

  /** Header.Set: replaces whatever was there. */
  function Set(h: Header, name: string, value: string): Header {
    h[name := [value]]
  }

  /** A sequence of Header.Set calls. */
  function PutAll(base: Header, names: seq<string>, values: seq<string>): Header
    requires |names| == |values|
  {
    if names == [] then base
    else Set(PutAll(base, names[..|names| - 1], values[..|values| - 1]), names[|names| - 1], values[|values| - 1])
  }

  lemma {:induction false} PutAllStep(base: Header, names: seq<string>, values: seq<string>, i: nat)
    requires i < |names| == |values|
    ensures PutAll(base, names[..i + 1], values[..i + 1])
            == Set(PutAll(base, names[..i], values[..i]), names[i], values[i])
  {
    assert names[..i + 1][..i] == names[..i] && values[..i + 1][..i] == values[..i];
  }

  lemma {:induction false} PutAllKeys(base: Header, names: seq<string>, values: seq<string>, key: string)
    requires |names| == |values|
    ensures key in PutAll(base, names, values) <==> key in base || key in names
  {
    if names != [] {
      assert names == names[..|names| - 1] + [names[|names| - 1]];
      PutAllKeys(base, names[..|names| - 1], values[..|values| - 1], key);
    }
  }

  lemma {:induction false} PutAllValue(base: Header, names: seq<string>, values: seq<string>, i: nat)
    requires i < |names| == |values| && forall j, k :: 0 <= j < k < |names| ==> names[j] != names[k]
    ensures names[i] in PutAll(base, names, values) && PutAll(base, names, values)[names[i]] == [values[i]]
  {
    if i < |names| - 1 {
      PutAllValue(base, names[..|names| - 1], values[..|values| - 1], i);
    }
  }
}
