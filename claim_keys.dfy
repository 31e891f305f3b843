/** The claim key a row's label turns into on submission:
    `lowercaseFirst(fieldName.split(' ').join(''))`. */
module ClaimKeys {

  /** `String.prototype.toLowerCase` on one character, for ASCII letters. */
  function ToLower(c: char): (d: char)
    ensures !('A' <= d <= 'Z')
    ensures !('A' <= c <= 'Z') ==> d == c
    ensures 'A' <= c <= 'Z' ==> d as int - c as int == 'a' as int - 'A' as int
  {
    if 'A' <= c <= 'Z' then (c as int - 'A' as int + 'a' as int) as char else c
  }

  /** `lowercaseFirst`: the first character lower-cased, the rest as is;
      `charAt(0)` of an empty string is empty. */
  function LowercaseFirst(s: string): (r: string)
    ensures |r| == |s|
    ensures s != [] ==> r[1..] == s[1..]
    ensures s != [] ==> r[0] == ToLower(s[0])
  {
    if s == [] then [] else [ToLower(s[0])] + s[1..]
  }

  /** Reference definition: the string with every space removed. */
  function StripSpaces(s: string): (r: string)
    ensures |r| <= |s|
    ensures ' ' !in r
    ensures ' ' !in s ==> r == s
  {
    if s == [] then []
    else if s[0] == ' ' then StripSpaces(s[1..])
    else [s[0]] + StripSpaces(s[1..])
  }

  /** `s.split(' ')`: the pieces between spaces; there is always at least
      one piece, and no piece contains a space. */
  function Split(s: string): (parts: seq<string>)
    ensures |parts| >= 1
    ensures forall i :: 0 <= i < |parts| ==> ' ' !in parts[i]
  {
    if s == [] then [[]]
    else
      var rest := Split(s[1..]);
      if s[0] == ' ' then [[]] + rest
      else [[s[0]] + rest[0]] + rest[1..]
  }

  /** `parts.join(sep)`: space-free pieces joined by a space-free separator
      give a space-free string. */
  function Join(parts: seq<string>, sep: string): (r: string)
    ensures ' ' !in sep && (forall i :: 0 <= i < |parts| ==> ' ' !in parts[i]) ==> ' ' !in r
  {
    if parts == [] then []
    else if |parts| == 1 then parts[0]
    else parts[0] + sep + Join(parts[1..], sep)
  }

  /** Splitting on spaces and joining with a space gives the string back. */
  lemma {:induction false} SplitJoinRoundTrip(s: string)
    ensures Join(Split(s), " ") == s
  {
    if s != [] {
      var rest := Split(s[1..]);
      SplitJoinRoundTrip(s[1..]);
      if s[0] == ' ' {
        assert ([[]] + rest)[1..] == rest;
      } else {
        assert ([[s[0]] + rest[0]] + rest[1..])[1..] == rest[1..];
      }
    }
  }

  /** Splitting on spaces and joining with nothing removes every space. */
  lemma {:induction false} SplitJoinStrips(s: string)
    ensures Join(Split(s), "") == StripSpaces(s)
  {
    if s != [] {
      var rest := Split(s[1..]);
      SplitJoinStrips(s[1..]);
      if s[0] == ' ' {
        assert ([[]] + rest)[1..] == rest;
      } else {
        assert ([[s[0]] + rest[0]] + rest[1..])[1..] == rest[1..];
      }
    }
  }

  /** Removing spaces keeps the other characters in order. */
  lemma {:induction false} StripSpacesConcat(a: string, b: string)
    ensures StripSpaces(a + b) == StripSpaces(a) + StripSpaces(b)
  {
    if a == [] {
      assert a + b == b;
    } else {
      assert (a + b)[1..] == a[1..] + b;
      StripSpacesConcat(a[1..], b);
    }
  }

  /** The claim key of a label, as the submit handler computes it: it holds
      no space and is no longer than the label. */
  function ClaimKey(fieldName: string): (k: string)
    ensures ' ' !in k
    ensures |k| <= |fieldName|
  {
    SplitJoinStrips(fieldName);
    LowercaseFirst(Join(Split(fieldName), ""))
  }

  /** Split-then-join is the reference space removal. */
  lemma ClaimKeyStrips(fieldName: string)
    ensures ClaimKey(fieldName) == LowercaseFirst(StripSpaces(fieldName))
  {
    SplitJoinStrips(fieldName);
  }

  /** The claim key is the label with every space removed and its first
      character lower-cased: it holds no space, an empty label gives an
      empty key, and every character after the first is kept. */
  lemma ClaimKeySpec(fieldName: string)
    ensures ClaimKey(fieldName) == LowercaseFirst(StripSpaces(fieldName))
    ensures ' ' !in ClaimKey(fieldName)
    ensures fieldName == [] ==> ClaimKey(fieldName) == []
    ensures |ClaimKey(fieldName)| == |StripSpaces(fieldName)|
    ensures ClaimKey(fieldName) != [] ==>
      && ClaimKey(fieldName)[0] == ToLower(StripSpaces(fieldName)[0])
      && ClaimKey(fieldName)[1..] == StripSpaces(fieldName)[1..]
  {
    SplitJoinStrips(fieldName);
  }

  /** Normalising a key again changes nothing. */
  lemma ClaimKeyIdempotent(fieldName: string)
    ensures ClaimKey(ClaimKey(fieldName)) == ClaimKey(fieldName)
  {
    var k := ClaimKey(fieldName);
    ClaimKeySpec(fieldName);
    ClaimKeySpec(k);
  }

  /** "birth Date" becomes "birthDate". */
  lemma ClaimKeyOfBirthDate()
    ensures ClaimKey("birth Date") == "birthDate"
  {
    StripBirthDate();
    ClaimKeyStrips("birth Date");
  }

  lemma StripBirthDate()
    ensures StripSpaces("birth Date") == "birthDate"
  {
    assert "birth Date" == "birth" + (" " + "Date");
    StripSpacesConcat("birth", " " + "Date");
    StripSpacesConcat(" ", "Date");
  }

  /** "Foo" and "foo" collide on the key "foo". */
  lemma ClaimKeysCollide()
    ensures ClaimKey("Foo") == ClaimKey("foo") == "foo"
  {
    ClaimKeySpec("Foo");
    ClaimKeySpec("foo");
  }
}
