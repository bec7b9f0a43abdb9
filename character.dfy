/** `srs_get_character_id`: the EVE character id read from the user's
    `wsl_current_user_image` URL with the pattern `@.*?/(\d*)_128.jpg@m`,
    cast to an integer; 0 when there is no image or no match. */
module Character {
  import opened Decimal
  import opened Php
  import opened WordPress

  /** What the pattern requires after the digits ending at `e`: "_128", one
      character that `.` accepts (anything but a newline), then "jpg". */
  predicate TailAt(s: string, e: nat) {
    e + 8 <= |s| && s[e..e + 4] == "_128" && s[e + 4] != '\n' && s[e + 5..e + 8] == "jpg"
  }

  /** `/(\d*)_128.jpg` matches with its slash at `slash` and the captured
      digits `s[slash + 1..e]`. The `.*?` before the slash accepts any prefix
      of the line, and the `m` modifier changes nothing without `^` or `$`. */
  predicate MatchesAt(s: string, slash: int, e: int) {
    && 0 <= slash < e <= |s|
    && s[slash] == '/'
    && AllDigits(s[slash + 1..e])
    && TailAt(s, e)
  }

  /** The captured run is always the maximal run of digits after the slash,
      since the character after it, '_', is not a digit. */
  lemma OnlyMaximalRun(s: string, slash: nat)
    requires slash < |s|
    ensures forall e | MatchesAt(s, slash, e) :: e == DigitRunEnd(s, slash + 1)
  {
    var d := DigitRunEnd(s, slash + 1);
    forall e | MatchesAt(s, slash, e) ensures e == d {
      assert !IsDigit(s[e]) by {
        assert s[e] == s[e..e + 4][0];
      }
      assert forall i | slash + 1 <= i < e :: IsDigit(s[i]) by {
        forall i | slash + 1 <= i < e ensures IsDigit(s[i]) {
          assert s[i] == s[slash + 1..e][i - slash - 1];
        }
      }
      assert forall i | slash + 1 <= i < d :: IsDigit(s[i]) by {
        forall i | slash + 1 <= i < d ensures IsDigit(s[i]) {
          assert s[i] == s[slash + 1..d][i - slash - 1];
        }
      }
    }
  }

  /** `preg_match` reports the match at the leftmost slash: no match starts
      before `slash`. */
  ghost predicate LeftmostMatch(s: string, slash: int, e: int) {
    MatchesAt(s, slash, e) && forall j, e' | j < slash :: !MatchesAt(s, j, e')
  }

  /** There is at most one leftmost match. */
  lemma LeftmostMatchUnique(s: string, j1: int, e1: int, j2: int, e2: int)
    requires LeftmostMatch(s, j1, e1) && LeftmostMatch(s, j2, e2)
    ensures j1 == j2 && e1 == e2
  {
    assert !(j1 < j2) && !(j2 < j1);
    OnlyMaximalRun(s, j1);
  }

  /** The first slash at or after `from` where the pattern matches, with the
      end of its digits. */
  function FirstMatch(s: string, from: nat): (m: Option<(nat, nat)>)
    requires from <= |s|
    ensures m.Some? ==> from <= m.value.0 && MatchesAt(s, m.value.0, m.value.1)
    ensures m.Some? ==> forall j, e | from <= j < m.value.0 :: !MatchesAt(s, j, e)
    ensures m.None? ==> forall j, e | from <= j :: !MatchesAt(s, j, e)
    decreases |s| - from
  {
    if from == |s| then None
    else
      var e := DigitRunEnd(s, from + 1);
      OnlyMaximalRun(s, from);
      if s[from] == '/' && TailAt(s, e) then Some((from, e))
      else FirstMatch(s, from + 1)
  }

  /** `preg_match` finds the leftmost match, and the lazy `.*?` makes it use
      the first slash that the rest of the pattern accepts; the `(int)` cast
      reads the captured digits (leading zeros included), and without a match
      `$character_id` is undefined and casts to 0. */
  function ExtractCharacterId(image: string): (id: nat)
    ensures (forall j, e :: !MatchesAt(image, j, e)) ==> id == 0
    ensures forall j, e | LeftmostMatch(image, j, e) :: id == DigitsValue(image[j + 1..e])
  {
    match FirstMatch(image, 0)
    case None => 0
    case Some((j, e)) =>
      assert LeftmostMatch(image, j, e);
      assert forall j', e' | LeftmostMatch(image, j', e') :: j' == j && e' == e by {
        forall j', e' | LeftmostMatch(image, j', e') ensures j' == j && e' == e {
          LeftmostMatchUnique(image, j, e, j', e');
        }
      }
      DigitsValue(image[j + 1..e])
  }

  /** `if ( ! $user_id ) $user_id = get_current_user_id();` */
  function ResolveUser(site: Site, userId: Option<int>): int {
    if userId.None? || userId.value == 0 then site.currentUserId else userId.value
  }

  /** `get_user_meta( $user_id, 'wsl_current_user_image', TRUE )`: "" when missing. */
  function UserImage(site: Site, userId: int): string {
    if userId in site.userImages then site.userImages[userId] else ""
  }

  /** `srs_get_character_id( $user_id )`. */
  function CharacterId(site: Site, userId: Option<int>): (id: nat)
    ensures UserImage(site, ResolveUser(site, userId)) == "" ==> id == 0
    // The truthiness guard changes nothing: "" and "0" contain no match.
    ensures id == ExtractCharacterId(UserImage(site, ResolveUser(site, userId)))
  {
    var image := UserImage(site, ResolveUser(site, userId));
    if Truthy(Str(image)) then ExtractCharacterId(image) else 0
  }

  /** The first matching slash determines the id: an earlier slash the rest
      of the pattern rejects is skipped, and text after ".jpg" is ignored. */
  lemma FirstMatchDecides(image: string, j: nat, e: nat)
    requires LeftmostMatch(image, j, e)
    ensures ExtractCharacterId(image) == DigitsValue(image[j + 1..e])
  {
  }

  /** An avatar URL of the usual shape: ".../654321_128.jpg" gives 654321. */
  lemma ExampleImage()
    ensures ExtractCharacterId(".../654321_128.jpg") == 654321
  {
    var s := ".../654321_128.jpg";
    assert s[4..10] == "654321";
    assert AllDigits(s[4..10]);
    assert s[10] == '_' && s[11] == '1' && s[12] == '2' && s[13] == '8';
    assert s[10..14] == "_128";
    assert s[14] == '.';
    assert s[15] == 'j' && s[16] == 'p' && s[17] == 'g';
    assert s[15..18] == "jpg";
    assert TailAt(s, 10);
    assert MatchesAt(s, 3, 10);
    forall j', e' | j' < 3 ensures !MatchesAt(s, j', e') {
    }
    FirstMatchDecides(s, 3, 10);
    DigitsExample();
  }

  lemma DigitsExample()
    ensures DigitsValue("654321") == 654321
  {
    assert DigitsValue("6") == 6;
    assert DigitsValue("65") == 65 by { assert "65"[..1] == "6"; }
    assert DigitsValue("654") == 654 by { assert "654"[..2] == "65"; }
    assert DigitsValue("6543") == 6543 by { assert "6543"[..3] == "654"; }
    assert DigitsValue("65432") == 65432 by { assert "65432"[..4] == "6543"; }
    assert "654321"[..5] == "65432";
  }

  /** An image URL with no "_128?jpg" in it gives 0. */
  lemma OtherImageGivesZero(image: string)
    requires forall e: nat :: !TailAt(image, e)
    ensures ExtractCharacterId(image) == 0
  {
  }

  /** ".../avatar.png" gives 0. */
  lemma AvatarGivesZero()
    ensures ExtractCharacterId(".../avatar.png") == 0
  {
    var s := ".../avatar.png";
    assert '_' !in s;
    forall e: nat ensures !TailAt(s, e) {
      if e + 8 <= |s| {
        assert s[e..e + 4][0] == s[e] && s[e] in s;
      }
    }
    OtherImageGivesZero(s);
  }

  /** A match whose digit run is empty ("/_128.jpg") casts "" to 0. */
  lemma EmptyDigitsGiveZero(image: string, j: nat)
    requires LeftmostMatch(image, j, j + 1)
    ensures ExtractCharacterId(image) == 0
  {
    FirstMatchDecides(image, j, j + 1);
  }

  /** A missing or empty image gives 0, whoever the user is. */
  lemma NoImageGivesZero(site: Site, userId: Option<int>)
    requires ResolveUser(site, userId) !in site.userImages || site.userImages[ResolveUser(site, userId)] == ""
    ensures CharacterId(site, userId) == 0
  {
  }
}
