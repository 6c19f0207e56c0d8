/** The identifiers a Tk tree view hands out for new items: the letter `I`
    followed by a serial number written in upper-case hexadecimal, padded with
    zeros to three digits ("I001", "I002", …, "I00A", …, "I1000"). The view
    takes a new one for every node it inserts; the model only needs that the
    supply never repeats itself and never yields the root's name "". */
module TreeIds {

  predicate IsHexDigit(c: char)
  {
    '0' <= c <= '9' || 'A' <= c <= 'F'
  }

  predicate AllHex(s: string)
  {
    forall i :: 0 <= i < |s| ==> IsHexDigit(s[i])
  }

  function HexChar(d: nat): (c: char)
    requires d < 16
    ensures IsHexDigit(c)
  {
    "0123456789ABCDEF"[d]
  }

  function HexValue(c: char): (d: nat)
    requires IsHexDigit(c)
    ensures d < 16
  {
    if c <= '9' then (c as int - '0' as int) as nat else (c as int - 'A' as int + 10) as nat
  }

  lemma HexCharRoundTrip(d: nat)
    requires d < 16
    ensures HexValue(HexChar(d)) == d
  {
  }

  /** `"%X" % n`: upper-case hexadecimal without leading zeros. */
  function HexString(n: nat): (r: string)
    ensures |r| >= 1 && AllHex(r)
  {
    if n < 16 then [HexChar(n)] else HexString(n / 16) + [HexChar(n % 16)]
  }

  /** The value of a string of hexadecimal digits (leading zeros allowed). */
  function ParseHex(s: string): nat
    requires AllHex(s)
  {
    if s == [] then 0 else 16 * ParseHex(s[..|s| - 1]) + HexValue(s[|s| - 1])
  }

  /** Left-pads with '0' up to `width` characters, as `%03X` does. */
  function ZeroPad(s: string, width: nat): (r: string)
    requires AllHex(s)
    ensures AllHex(r) && |r| >= |s| && |r| >= width
    decreases width - |s|
  {
    if |s| >= width then s else ZeroPad(['0'] + s, width)
  }

  lemma {:induction false} HexRoundTrip(n: nat)
    ensures ParseHex(HexString(n)) == n
  {
    var s := HexString(n);
    if n < 16 {
      HexCharRoundTrip(n);
      assert s[..|s| - 1] == [];
    } else {
      assert s[..|s| - 1] == HexString(n / 16);
      HexRoundTrip(n / 16);
      HexCharRoundTrip(n % 16);
    }
  }

  /** A leading zero does not change the value. */
  lemma {:induction false} LeadingZero(s: string)
    requires AllHex(s)
    ensures ParseHex(['0'] + s) == ParseHex(s)
    decreases |s|
  {
    var z := ['0'] + s;
    if s == [] {
      assert z[..|z| - 1] == [];
    } else {
      assert z[..|z| - 1] == ['0'] + s[..|s| - 1];
      assert z[|z| - 1] == s[|s| - 1];
      LeadingZero(s[..|s| - 1]);
    }
  }

  lemma {:induction false} PaddedValue(s: string, width: nat)
    requires AllHex(s)
    ensures ParseHex(ZeroPad(s, width)) == ParseHex(s)
    decreases width - |s|
  {
    if |s| < width {
      PaddedValue(['0'] + s, width);
      LeadingZero(s);
    }
  }

  /** The id of the `n`-th item inserted into a tree view: `"I%03X" % n`. */
  function TreeId(n: nat): (id: string)
    ensures |id| >= 4 && id[0] == 'I' && AllHex(id[1..])
  {
    ['I'] + ZeroPad(HexString(n), 3)
  }

  /** Reading the number back out of an id. */
  function IdNumber(id: string): nat
    requires |id| >= 1 && AllHex(id[1..])
  {
    ParseHex(id[1..])
  }

  lemma IdNumberRoundTrip(n: nat)
    ensures IdNumber(TreeId(n)) == n
  {
    var id := TreeId(n);
    assert id[1..] == ZeroPad(HexString(n), 3);
    PaddedValue(HexString(n), 3);
    HexRoundTrip(n);
  }

  /** Different serial numbers give different ids. */
  lemma TreeIdInjective(m: nat, n: nat)
    requires TreeId(m) == TreeId(n)
    ensures m == n
  {
    IdNumberRoundTrip(m);
    IdNumberRoundTrip(n);
  }

  /** The ids handed out before the counter reached `counter`. */
  function Issued(counter: nat): set<string>
  {
    set n: nat | 1 <= n < counter :: TreeId(n)
  }

  /** The next id has not been handed out yet, and the supply only grows. */
  lemma NextIsFresh(counter: nat)
    requires counter >= 1
    ensures TreeId(counter) !in Issued(counter)
    ensures Issued(counter + 1) == Issued(counter) + {TreeId(counter)}
  {
    if TreeId(counter) in Issued(counter) {
      var n: nat :| 1 <= n < counter && TreeId(n) == TreeId(counter);
      TreeIdInjective(n, counter);
    }
    forall id | id in Issued(counter + 1) ensures id in Issued(counter) + {TreeId(counter)} {
      var n: nat :| 1 <= n < counter + 1 && TreeId(n) == id;
      if n < counter {
        assert id in Issued(counter);
      }
    }
  }

  /** The first ids of a fresh tree view. */
  lemma FirstIds()
    ensures TreeId(1) == "I001" && TreeId(26) == "I01A" && TreeId(4096) == "I1000"
  {
    FirstId();
    TwentySixthId();
    ThousandthId();
  }

  lemma FirstId()
    ensures TreeId(1) == "I001"
  {
    assert HexString(1) == "1";
    assert ZeroPad("1", 3) == ZeroPad("01", 3);
    assert ZeroPad("01", 3) == ZeroPad("001", 3);
  }

  lemma TwentySixthId()
    ensures TreeId(26) == "I01A"
  {
    assert HexString(1) == "1";
    assert HexString(26) == "1A";
    assert ZeroPad("1A", 3) == ZeroPad("01A", 3);
  }

  lemma ThousandthId()
    ensures TreeId(4096) == "I1000"
  {
    assert HexString(16) == "10";
    assert HexString(256) == "100";
    assert HexString(4096) == "1000";
  }
}
