/** The identifier generator `uuid(t = 'id-xxxxx')` of lib/react-mount-node.ts.
    Every `x` of the pattern becomes a random hex digit, every `y` a random
    hex digit with the variant bits set (one of 8, 9, a, b); every other
    character is kept. The random source is modelled as the sequence of
    nibbles it yields, consumed left to right, one per placeholder. */
module Ids {

  /** A value of `(Math.random() * 16) | 0`. */
  type Nibble = n: int | 0 <= n < 16

  /** The pattern `uuid` uses when called without an argument. */
  const DefaultPattern: string := "id-xxxxx"

  /** The characters the regular expression `/[xy]/g` matches. */
  predicate IsPlaceholder(c: char) {
    c == 'x' || c == 'y'
  }

  /** The number of nibbles `Uuid(t, _)` consumes. */
  function Placeholders(t: string): nat {
    if t == [] then 0
    else (if IsPlaceholder(t[0]) then 1 else 0) + Placeholders(t[1..])
  }

  predicate IsHexDigit(c: char) {
    '0' <= c <= '9' || 'a' <= c <= 'f'
  }

  /** The digits a `y` can become. */
  predicate IsVariantDigit(c: char) {
    c == '8' || c == '9' || c == 'a' || c == 'b'
  }

  /** `v.toString(16)` for a value below 16: one lower-case hex digit. */
  function HexDigit(v: Nibble): (c: char)
    ensures IsHexDigit(c)
    ensures v < 10 <==> '0' <= c <= '9'
  {
    if v < 10 then ('0' as int + v) as char else ('a' as int + v - 10) as char
  }

  /** The value of a lower-case hex digit; `HexDigit` inverts it. */
  function HexValue(c: char): (v: Nibble)
    requires IsHexDigit(c)
    ensures HexDigit(v) == c
  {
    if c <= '9' then c as int - '0' as int else c as int - 'a' as int + 10
  }

  /** Reading back the digit `HexDigit` writes gives the value written. */
  lemma HexValueOfDigit(v: Nibble)
    ensures HexValue(HexDigit(v)) == v
  {
  }

  /** `(r & 0x3) | 0x8`: keep the two low bits of `r` and set bit 3. */
  function VariantBits(r: Nibble): (v: Nibble)
    ensures v == 8 + r % 4
  {
    (((r as bv8) & 0x3) | 0x8) as int
  }

  /** The callback's result for the matched character `c` and the nibble `r`:
      `r` itself for `x`, its variant form for `y`, written in hex. */
  function Substitute(c: char, r: Nibble): (d: char)
    requires IsPlaceholder(c)
    ensures c == 'x' ==> d == HexDigit(r)
    ensures c == 'y' ==> IsVariantDigit(d)
  {
    HexDigit(if c == 'x' then r else VariantBits(r))
  }

  /** `uuid(t)` with the random nibbles `rs`. */
  function Uuid(t: string, rs: seq<Nibble>): (s: string)
    requires Placeholders(t) <= |rs|
    ensures |s| == |t|
  {
    if t == [] then []
    else if IsPlaceholder(t[0]) then [Substitute(t[0], rs[0])] + Uuid(t[1..], rs[1..])
    else [t[0]] + Uuid(t[1..], rs)
  }

  /** Position `i` of `s` is what the replacement leaves for pattern character `p`. */
  predicate FitsAt(d: char, p: char) {
    if p == 'x' then IsHexDigit(d)
    else if p == 'y' then IsVariantDigit(d)
    else d == p
  }

  /** `s` has the shape of pattern `t`: the strings `uuid(t)` can return. */
  predicate Fits(s: string, t: string) {
    |s| == |t| && forall i :: 0 <= i < |s| ==> FitsAt(s[i], t[i])
  }

  lemma {:induction false} PlaceholdersAppend(a: string, b: string)
    ensures Placeholders(a + b) == Placeholders(a) + Placeholders(b)
  {
    if a == [] {
      assert a + b == b;
    } else {
      assert (a + b)[1..] == a[1..] + b;
      PlaceholdersAppend(a[1..], b);
    }
  }

  lemma {:induction false} PlaceholdersUniform(t: string, all: bool)
    requires forall i :: 0 <= i < |t| ==> IsPlaceholder(t[i]) == all
    ensures Placeholders(t) == if all then |t| else 0
  {
    if t != [] {
      assert forall i :: 0 <= i < |t[1..]| ==> t[1..][i] == t[i + 1];
      PlaceholdersUniform(t[1..], all);
    }
  }

  lemma {:induction false} PlaceholdersPrefix(t: string, i: nat)
    requires i <= |t|
    ensures Placeholders(t[..i]) <= Placeholders(t)
    ensures i < |t| && IsPlaceholder(t[i]) ==> Placeholders(t[..i]) < Placeholders(t)
  {
    assert t == t[..i] + t[i..];
    PlaceholdersAppend(t[..i], t[i..]);
  }

  /** What `uuid` writes at each position: non-placeholders are copied,
      and the `k`-th placeholder, counted from the left, is filled from
      the `k`-th nibble. */
  lemma {:induction false} UuidAt(t: string, rs: seq<Nibble>, i: nat)
    requires Placeholders(t) <= |rs|
    requires i < |t|
    ensures Placeholders(t[..i]) < |rs| || !IsPlaceholder(t[i])
    ensures !IsPlaceholder(t[i]) ==> Uuid(t, rs)[i] == t[i]
    ensures t[i] == 'x' ==> Uuid(t, rs)[i] == HexDigit(rs[Placeholders(t[..i])])
    ensures t[i] == 'y' ==> Uuid(t, rs)[i] == HexDigit(VariantBits(rs[Placeholders(t[..i])]))
  {
    PlaceholdersPrefix(t, i);
    if i > 0 {
      assert t[1..][..i - 1] == t[..i][1..];
      if IsPlaceholder(t[0]) {
        UuidAt(t[1..], rs[1..], i - 1);
      } else {
        UuidAt(t[1..], rs, i - 1);
      }
    }
  }

  /** Every result of `uuid(t)` has the shape of `t`: same length, the
      non-placeholders kept, a hex digit at each `x`, one of 8, 9, a, b at
      each `y`. */
  lemma UuidFits(t: string, rs: seq<Nibble>)
    requires Placeholders(t) <= |rs|
    ensures Fits(Uuid(t, rs), t)
  {
    var s := Uuid(t, rs);
    forall i | 0 <= i < |s| ensures FitsAt(s[i], t[i]) {
      UuidAt(t, rs, i);
    }
  }

  /** A pattern without placeholders is returned unchanged and consumes nothing. */
  lemma {:induction false} UuidNoPlaceholders(t: string, rs: seq<Nibble>)
    requires Placeholders(t) == 0
    ensures Uuid(t, rs) == t
  {
    if t != [] {
      UuidNoPlaceholders(t[1..], rs);
    }
  }

  /** The nibbles that make `uuid(t)` return `s`: the value of the digit at
      each placeholder. */
  function NibblesFor(s: string, t: string): (rs: seq<Nibble>)
    requires Fits(s, t)
    ensures |rs| == Placeholders(t)
  {
    if t == [] then []
    else
      assert FitsAt(s[0], t[0]);
      assert Fits(s[1..], t[1..]) by {
        forall i | 0 <= i < |s[1..]| ensures FitsAt(s[1..][i], t[1..][i]) {
          assert FitsAt(s[i + 1], t[i + 1]);
        }
      }
      (if IsPlaceholder(t[0]) then [HexValue(s[0])] else []) + NibblesFor(s[1..], t[1..])
  }

  /** Conversely, every string of the shape of `t` is a possible result:
      the supply `NibblesFor(s, t)` makes `uuid(t)` return exactly `s`. */
  lemma {:induction false} UuidOnto(s: string, t: string)
    requires Fits(s, t)
    ensures Uuid(t, NibblesFor(s, t)) == s
  {
    if t != [] {
      assert FitsAt(s[0], t[0]);
      assert Fits(s[1..], t[1..]) by {
        forall i | 0 <= i < |s[1..]| ensures FitsAt(s[1..][i], t[1..][i]) {
          assert FitsAt(s[i + 1], t[i + 1]);
        }
      }
      UuidOnto(s[1..], t[1..]);
      var rs := NibblesFor(s, t);
      if IsPlaceholder(t[0]) {
        assert rs[1..] == NibblesFor(s[1..], t[1..]);
        assert Substitute(t[0], rs[0]) == s[0];
      } else {
        assert rs == NibblesFor(s[1..], t[1..]);
      }
      assert s == [s[0]] + s[1..];
    }
  }

  /** With the default pattern the result is `id-` followed by the five
      supplied nibbles written as hex digits. */
  lemma DefaultPatternShape(rs: seq<Nibble>)
    requires 5 <= |rs|
    ensures Placeholders(DefaultPattern) == 5
    ensures |Uuid(DefaultPattern, rs)| == 8
    ensures Uuid(DefaultPattern, rs)[..3] == "id-"
    ensures forall i :: 3 <= i < 8 ==> Uuid(DefaultPattern, rs)[i] == HexDigit(rs[i - 3])
  {
    var t := DefaultPattern;
    PlaceholdersUniform(t[..3], false);
    assert Placeholders(t) == 5 by {
      PlaceholdersUniform(t[3..], true);
      assert t == t[..3] + t[3..];
      PlaceholdersAppend(t[..3], t[3..]);
    }
    var s := Uuid(t, rs);
    forall i | 0 <= i < 8 ensures i < 3 ==> s[i] == t[i] ensures 3 <= i ==> s[i] == HexDigit(rs[i - 3]) {
      UuidAt(t, rs, i);
      if 3 <= i {
        assert t[..i] == t[..3] + t[3..i];
        PlaceholdersAppend(t[..3], t[3..i]);
        PlaceholdersUniform(t[3..i], true);
      }
    }
  }
}
