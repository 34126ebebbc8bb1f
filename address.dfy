/** The command line's device-address check, `isValidAddress` (ota.py:178-206). Its two regular
    expressions are written out as explicit matchers with Python's `re.search` semantics, and
    the check is proved equal to two plain character-class forms. */
module Address {
  import opened Wrappers

  /** `[0-9A-Fa-f]` (ASCII only). */
  predicate IsHexDigit(c: char)
  {
    '0' <= c <= '9' || 'a' <= c <= 'f' || 'A' <= c <= 'F'
  }

  /** `[:-]` */
  predicate IsSeparator(c: char)
  {
    c == ':' || c == '-'
  }

  /** `s` begins with n hex digits. */
  predicate HexRun(s: string, n: nat)
  {
    |s| >= n && forall i :: 0 <= i < n ==> IsHexDigit(s[i])
  }

  /** `([0-9A-Fa-f]{2}[:-]){n}([0-9A-Fa-f]{2})` matches at the start of `s`. */
  predicate PairsPrefix(s: string, n: nat)
    decreases n
  {
    if n == 0 then HexRun(s, 2)
    else HexRun(s, 2) && |s| >= 3 && IsSeparator(s[2]) && PairsPrefix(s[3..], n - 1)
  }

  /** `([0-9a-fA-F]{4}\.[0-9a-fA-F]{4}\.[0-9a-fA-F]{4}){n}` matches the whole of `s`. */
  predicate DottedGroups(s: string, n: nat)
    decreases n
  {
    if n == 0 then |s| == 0
    else
      |s| >= 14 && HexRun(s, 4) && s[4] == '.' && HexRun(s[5..], 4) && s[9] == '.' &&
      HexRun(s[10..], 4) && DottedGroups(s[14..], n - 1)
  }

  /** Python's `$` holds at position k: the end of `s`, or just before a newline that ends it. */
  predicate EndAnchor(s: string, k: nat)
  {
    k == |s| || (k + 1 == |s| && s[k] == '\n')
  }

  /** `re.search` with the first expression. Alternation binds loosest, so its first branch
      is anchored only at the start and its second, the dotted form, only at the end. */
  predicate MacSearch(s: string)
  {
    PairsPrefix(s, 5) ||
    exists i, j :: 0 <= i <= j <= |s| && DottedGroups(s[i..j], 17) && EndAnchor(s, j)
  }

  /** `([0-9a-fA-F]{4}-){n}[0-9a-fA-F]{12}` matches the whole of `s`. */
  predicate QuadsThenTwelve(s: string, n: nat)
    decreases n
  {
    if n == 0 then |s| == 12 && HexRun(s, 12)
    else |s| >= 5 && HexRun(s, 4) && s[4] == '-' && QuadsThenTwelve(s[5..], n - 1)
  }

  /** `[0-9a-fA-F]{8}-([0-9a-fA-F]{4}-){3}[0-9a-fA-F]{12}` matches the whole of `s`. */
  predicate UuidBody(s: string)
  {
    |s| >= 9 && HexRun(s, 8) && s[8] == '-' && QuadsThenTwelve(s[9..], 3)
  }

  /** `[}]?$` holds from position j on. */
  predicate UuidClose(s: string, j: nat)
  {
    EndAnchor(s, j) || (j < |s| && s[j] == '}' && EndAnchor(s, j + 1))
  }

  /** `re.search` with the second expression, `^[{]?` body `[}]?$`. */
  predicate UuidSearch(s: string)
  {
    exists i, j :: 0 <= i <= 1 && i <= j <= |s| && (i == 1 ==> s[0] == '{') &&
      UuidBody(s[i..j]) && UuidClose(s, j)
  }

  /** `isValidAddress`: false for None, true when the first expression is found and the string
      is 17 characters long, or the second is found and it is 36 characters long. */
  function IsValidAddress(s: Option<string>): bool
  {
    if s.None? then false
    else if MacSearch(s.value) && |s.value| == 17 then true
    else UuidSearch(s.value) && |s.value| == 36
  }

  /** Six hex pairs, each pair but the last followed by ':' or '-' (mixing allowed). */
  predicate IsMacForm(s: string)
  {
    |s| == 17 && forall i :: 0 <= i < 17 ==> if i % 3 == 2 then IsSeparator(s[i]) else IsHexDigit(s[i])
  }

  /** 8-4-4-4-12 hex digits separated by '-', without braces. */
  predicate IsUuidForm(s: string)
  {
    |s| == 36 &&
    forall i :: 0 <= i < 36 ==> if i == 8 || i == 13 || i == 18 || i == 23 then s[i] == '-' else IsHexDigit(s[i])
  }

  lemma {:induction false} PairsPrefixForm(s: string, n: nat)
    ensures PairsPrefix(s, n) <==>
      |s| >= 3 * n + 2 && forall i :: 0 <= i < 3 * n + 2 ==> if i % 3 == 2 then IsSeparator(s[i]) else IsHexDigit(s[i])
  {
    if n > 0 && |s| >= 3 {
      PairsPrefixForm(s[3..], n - 1);
      forall i | 3 <= i < 3 * n + 2 && i < |s|
        ensures s[i] == s[3..][i - 3] && i % 3 == (i - 3) % 3
      {
      }
    }
  }

  lemma {:induction false} DottedGroupsLength(s: string, n: nat)
    ensures DottedGroups(s, n) ==> |s| == 14 * n
  {
    if n > 0 && |s| >= 14 {
      DottedGroupsLength(s[14..], n - 1);
    }
  }

  /** The dotted alternative needs 238 characters, so at length 17 only the pair form can match. */
  lemma MacSearchAt17(s: string)
    requires |s| == 17
    ensures MacSearch(s) <==> IsMacForm(s)
  {
    PairsPrefixForm(s, 5);
    forall i, j | 0 <= i <= j <= |s|
      ensures !DottedGroups(s[i..j], 17)
    {
      DottedGroupsLength(s[i..j], 17);
    }
  }

  lemma QuadsThenTwelveForm(s: string)
    ensures QuadsThenTwelve(s, 3) <==>
      |s| == 27 && forall i :: 0 <= i < 27 ==> if i == 4 || i == 9 || i == 14 then s[i] == '-' else IsHexDigit(s[i])
  {
    if |s| == 27 {
      assert s[5..][5..] == s[10..];
      assert s[10..][5..] == s[15..];
    }
  }

  lemma UuidBodyForm(s: string)
    ensures UuidBody(s) <==> IsUuidForm(s)
  {
    if |s| >= 9 {
      QuadsThenTwelveForm(s[9..]);
    }
  }

  /** Braces and a trailing newline lengthen the string beyond 36, so at length 36 only the bare
      form can match. */
  lemma UuidSearchAt36(s: string)
    requires |s| == 36
    ensures UuidSearch(s) <==> IsUuidForm(s)
  {
    if UuidSearch(s) {
      var i, j :| 0 <= i <= 1 && i <= j <= |s| && (i == 1 ==> s[0] == '{') &&
        UuidBody(s[i..j]) && UuidClose(s, j);
      UuidBodyForm(s[i..j]);
      assert i == 0 && j == 36;
      assert s[i..j] == s;
    }
    if IsUuidForm(s) {
      UuidBodyForm(s);
      assert s[0..36] == s;
      assert UuidBody(s[0..36]) && UuidClose(s, 36);
    }
  }

  /** `isValidAddress(s)` holds exactly for the 17-character pair form and the 36-character
      bare UUID form, and never for None. */
  lemma ValidAddressForms(s: Option<string>)
    ensures IsValidAddress(s) <==> s.Some? && (IsMacForm(s.value) || IsUuidForm(s.value))
  {
    if s.Some? {
      if |s.value| == 17 {
        MacSearchAt17(s.value);
      } else if |s.value| == 36 {
        UuidSearchAt36(s.value);
      }
    }
  }

  /** A colon-separated upper-case MAC address is valid. */
  lemma MacAddressExample()
    ensures IsValidAddress(Some("AA:BB:CC:DD:EE:FF"))
  {
    var a := "AA:BB:CC:DD:EE:FF";
    assert IsMacForm(a);
    ValidAddressForms(Some(a));
  }

  /** The usage line's example address is valid. */
  lemma UsageAddressExample()
    ensures IsValidAddress(Some("01:23:45:67:89:ab"))
  {
    var b := "01:23:45:67:89:ab";
    assert IsMacForm(b);
    ValidAddressForms(Some(b));
  }

  /** The service UUID is a valid address. */
  lemma UuidAddressExample()
    ensures IsValidAddress(Some("fb1e4001-54ae-4a28-9f74-dfccb248601d"))
  {
    var u := "fb1e4001-54ae-4a28-9f74-dfccb248601d";
    assert IsUuidForm(u);
    ValidAddressForms(Some(u));
  }

  /** A plain word, a braced UUID and a missing argument are not valid addresses. */
  lemma InvalidAddressExamples()
    ensures !IsValidAddress(Some("not-an-address"))
    ensures !IsValidAddress(Some("{fb1e4001-54ae-4a28-9f74-dfccb248601d}"))
    ensures !IsValidAddress(None)
  {
    ValidAddressForms(Some("not-an-address"));
    ValidAddressForms(Some("{fb1e4001-54ae-4a28-9f74-dfccb248601d}"));
  }
}
