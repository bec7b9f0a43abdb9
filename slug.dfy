/** `srs_sanitize_seat_role`: the role slug derived from a SeAT role title. */
module Slugs {
  import opened WordPress

  predicate IsUpper(c: char) {
    'A' <= c <= 'Z'
  }

  function LowerChar(c: char): (l: char)
    ensures !IsUpper(l)
    ensures IsUpper(c) ==> l as int == c as int + 32
    ensures !IsUpper(c) ==> l == c
  {
    if IsUpper(c) then (c as int + 32) as char else c
  }

  predicate IsLowerCase(s: string) {
    forall i | 0 <= i < |s| :: !IsUpper(s[i])
  }

  /** `strtolower`: the ASCII capitals become small letters, every other
      character is kept. */
  function ToLower(s: string): (r: string)
    ensures |r| == |s| && IsLowerCase(r)
    ensures forall i | 0 <= i < |s| && !IsUpper(s[i]) :: r[i] == s[i]
    ensures forall i | 0 <= i < |s| && IsUpper(s[i]) :: r[i] as int == s[i] as int + 32
  {
    seq(|s|, i requires 0 <= i < |s| => LowerChar(s[i]))
  }

  /** A lower-case string is left as it is. */
  lemma ToLowerKeepsLowerCase(s: string)
    requires IsLowerCase(s)
    ensures ToLower(s) == s
  {
  }

  /** The characters an HTML class name may keep. */
  predicate IsClassChar(c: char) {
    'A' <= c <= 'Z' || 'a' <= c <= 'z' || '0' <= c <= '9' || c == '_' || c == '-'
  }

  /** `srs_sanitize_seat_role( $role )`: `strtolower( sanitize_html_class( $role ) )`. */
  function SanitizeSeatRole(f: Foreign, role: string): (slug: string)
    ensures IsLowerCase(slug)
    ensures |slug| == |f.sanitizeHtmlClass(role)|
  {
    ToLower(f.sanitizeHtmlClass(role))
  }

  /** A slug is its own slug under lower-casing: applying `strtolower` again
      changes nothing. */
  lemma SlugIsLowerCaseFixedPoint(f: Foreign, role: string)
    ensures ToLower(SanitizeSeatRole(f, role)) == SanitizeSeatRole(f, role)
  {
    ToLowerKeepsLowerCase(SanitizeSeatRole(f, role));
  }

  /** When `sanitize_html_class` keeps only class-name characters, the slug
      consists of small letters, digits, `_` and `-`. */
  lemma SlugCharacters(f: Foreign, role: string)
    requires forall i | 0 <= i < |f.sanitizeHtmlClass(role)| :: IsClassChar(f.sanitizeHtmlClass(role)[i])
    ensures forall i | 0 <= i < |SanitizeSeatRole(f, role)| ::
      var c := SanitizeSeatRole(f, role)[i];
      'a' <= c <= 'z' || '0' <= c <= '9' || c == '_' || c == '-'
  {
  }
}
