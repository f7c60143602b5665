/**
  The undefined-variable value used while partially rendering the check
  templates (`SilentUndefined`): printing it or dividing it gives back the
  replacement field `{{ name }}`, so a criterion that mentions an unknown
  variable keeps mentioning it; item and attribute access give the bare name.
 */
module SilentUndefined {
  import opened Wrappers

  /** An undefined template variable, known by its name. */
  datatype Undefined = Undefined(name: string)

  /** The name inside a replacement field `{{ name }}`, if `s` is one. */
  function FieldName(s: string): Option<string> {
    if |s| >= 6 && s[..3] == "{{ " && s[|s| - 3..] == " }}" then Some(s[3..|s| - 3]) else None
  }

  /** `str(u)`: a replacement field that reads back as the variable's name. */
  function Str(u: Undefined): (r: string)
    ensures FieldName(r) == Some(u.name)
    ensures |r| == |u.name| + 6
  {
    var r := "{{ " + u.name + " }}";
    assert r[..3] == "{{ " && r[|r| - 3..] == " }}" && r[3..|r| - 3] == u.name;
    r
  }

  /** `u / divisor`: the numerator's replacement field, whatever the divisor. */
  function TrueDiv<T>(u: Undefined, divisor: T): (r: string)
    ensures r == Str(u)
  {
    "{{ " + u.name + " }}"
  }

  /** `u[key]`: the name the placeholder reads back as, not the placeholder itself, whatever the key. */
  function GetItem<T>(u: Undefined, key: T): (r: string)
    ensures FieldName(Str(u)) == Some(r) && r != Str(u)
  {
    u.name
  }

  /** `u.attr`: the name the placeholder reads back as, not the placeholder itself, whatever the attribute. */
  function GetAttr(u: Undefined, attr: string): (r: string)
    ensures FieldName(Str(u)) == Some(r) && r != Str(u)
  {
    u.name
  }

  /** A printed placeholder reads back as its variable's name, and only a printed placeholder does. */
  lemma StrRoundTrip(s: string, name: string)
    ensures FieldName(s) == Some(name) <==> s == Str(Undefined(name))
  {
    if FieldName(s) == Some(name) {
      assert s == s[..3] + s[3..|s| - 3] + s[|s| - 3..];
    }
  }
}
