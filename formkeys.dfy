/**
 * Parsing the fields of the doctor's availability form (app.py:869-877).
 * Each checked box arrives as a field named `avail-<date>-<slot>`; the handler
 * collects the pairs it can parse into `form_avail`.
 *
 * As written, the handler cuts a field name with `key.split("-", 2)`, which
 * stops at the first two hyphens, while the dates it later looks up are ISO
 * strings with hyphens of their own. `ParseKeyAsWritten` models that split;
 * `ParseKey` is the evidently intended parse (the date is everything between
 * the prefix and the last hyphen) and is the one the rest of the model uses.
 */
module FormKeys {
  import opened Optional
  import opened Calendar
  import opened Availability

  /** The field-name prefix the handler looks for. */
  const Prefix: string := "avail-"

  predicate StartsWith(s: string, p: string) {
    |p| <= |s| && s[..|p|] == p
  }

  function FirstHyphen(s: string): (i: nat)
    requires '-' in s
    ensures i < |s| && s[i] == '-' && '-' !in s[..i]
  {
    if s[0] == '-' then 0
    else
      assert '-' in s[1..] by {
        var j :| 0 <= j < |s| && s[j] == '-';
        assert s[1..][j - 1] == '-';
      }
      var i := 1 + FirstHyphen(s[1..]);
      assert s[..i] == [s[0]] + s[1..][..i - 1];
      i
  }

  function LastHyphen(s: string): (i: nat)
    requires '-' in s
    ensures i < |s| && s[i] == '-' && '-' !in s[i + 1..]
  {
    if s[|s| - 1] == '-' then |s| - 1
    else
      var init := s[..|s| - 1];
      assert '-' in init by {
        var j :| 0 <= j < |s| && s[j] == '-';
        assert init[j] == '-';
      }
      var i := LastHyphen(init);
      assert s[i + 1..] == init[i + 1..] + [s[|s| - 1]];
      i
  }

  /** The first hyphen is the only one with no hyphen before it. */
  lemma {:induction false} FirstHyphenUnique(s: string, i: int)
    requires 0 <= i < |s| && s[i] == '-' && '-' !in s[..i]
    ensures FirstHyphen(s) == i
    decreases |s|
  {
    if i > 0 {
      assert s[0] == s[..i][0];
      assert s[1..][i - 1] == '-';
      assert s[1..][..i - 1] == s[..i][1..];
      FirstHyphenUnique(s[1..], i - 1);
    }
  }

  /** The last hyphen is the only one with no hyphen after it. */
  lemma {:induction false} LastHyphenUnique(s: string, i: int)
    requires 0 <= i < |s| && s[i] == '-' && '-' !in s[i + 1..]
    ensures LastHyphen(s) == i
    decreases |s|
  {
    if s[|s| - 1] != '-' {
      var init := s[..|s| - 1];
      assert init[i + 1..] == s[i + 1..|s| - 1];
      assert '-' !in init[i + 1..];
      LastHyphenUnique(init, i);
    }
  }

  /** Cutting at the first hyphen: a hyphen-free head, the hyphen, the rest. */
  lemma CutAtFirstHyphen(s: string)
    requires '-' in s
    ensures s == s[..FirstHyphen(s)] + "-" + s[FirstHyphen(s) + 1..]
    ensures '-' !in s[..FirstHyphen(s)]
  {
  }

  /** Two cuts at hyphens, one inside the other, make one string with two hyphens. */
  lemma JoinAround(s: string, head: string, rest: string, mid: string, tail: string)
    requires s == head + "-" + rest && rest == mid + "-" + tail
    ensures s == head + "-" + mid + "-" + tail
  {
  }

  /** The list `s.split("-", 2)` returns, by its length (one, two or three parts). */
  datatype Parts =
    | One(whole: string)
    | Two(first: string, last: string)
    | Three(first: string, second: string, last: string)

  /**
   * `s.split("-", 2)`: cut at the first hyphen, then at the first hyphen of
   * what follows; whatever remains is the last part, hyphens and all.
   */
  function SplitHyphen2(s: string): (parts: Parts)
    ensures parts.One? <==> '-' !in s
    ensures parts.One? ==> parts.whole == s
    ensures parts.Two? ==> s == parts.first + "-" + parts.last && '-' !in parts.first && '-' !in parts.last
    ensures parts.Three? ==> s == parts.first + "-" + parts.second + "-" + parts.last
    ensures parts.Three? ==> '-' !in parts.first && '-' !in parts.second
    ensures parts.Three? <==> '-' in s && '-' in s[FirstHyphen(s) + 1..]
  {
    if '-' !in s then One(s)
    else
      var i := FirstHyphen(s);
      var head, rest := s[..i], s[i + 1..];
      CutAtFirstHyphen(s);
      if '-' !in rest then Two(head, rest)
      else
        var j := FirstHyphen(rest);
        var mid, tail := rest[..j], rest[j + 1..];
        CutAtFirstHyphen(rest);
        JoinAround(s, head, rest, mid, tail);
        Three(head, mid, tail)
  }

  /** A prefixed key's first hyphen is the one that ends the prefix. */
  lemma PrefixedKeyFirstHyphen(key: string)
    requires StartsWith(key, Prefix)
    ensures '-' in key && FirstHyphen(key) == |Prefix| - 1
  {
    assert key[5] == Prefix[5];
    assert key[..5] == Prefix[..5];
    FirstHyphenUnique(key, 5);
  }

  /**
   * `_, dstr, slot_key = key.split("-", 2)` for a key that starts with
   * "avail-"; fewer than three parts raise ValueError, which the handler skips.
   */
  function ParseKeyAsWritten(key: string): (r: Option<(string, string)>)
    ensures r.Some? ==> '-' !in r.value.0
    ensures r.Some? ==> key == Prefix + r.value.0 + "-" + r.value.1
    ensures r.None? <==> !StartsWith(key, Prefix) || '-' !in key[|Prefix|..]
  {
    if !StartsWith(key, Prefix) then None
    else
      PrefixedKeyFirstHyphen(key);
      match SplitHyphen2(key)
      case Three(first, second, last) =>
        assert first == key[..5];
        assert key[..|Prefix|] == first + "-";
        Some((second, last))
      case _ => None
  }

  /**
   * The evidently intended parse, `key[len("avail-"):].rsplit("-", 1)`: the
   * date runs up to the last hyphen, so ISO dates survive.
   */
  function ParseKey(key: string): (r: Option<(string, string)>)
    ensures r.Some? ==> '-' !in r.value.1
    ensures r.Some? ==> key == Prefix + r.value.0 + "-" + r.value.1
  {
    if !StartsWith(key, Prefix) then None
    else
      var rest := key[|Prefix|..];
      if '-' !in rest then None
      else
        var i := LastHyphen(rest);
        assert rest == rest[..i] + "-" + rest[i + 1..];
        assert key == key[..|Prefix|] + rest;
        Some((rest[..i], rest[i + 1..]))
  }

  /** Every field the form renders for a date and a hyphen-free slot key parses back to that pair. */
  lemma ParseKeyRoundTrip(date: string, slot: string)
    requires '-' !in slot
    ensures ParseKey(Prefix + date + "-" + slot) == Some((date, slot))
  {
    var key := Prefix + date + "-" + slot;
    assert key[..|Prefix|] == Prefix;
    var rest := key[|Prefix|..];
    assert rest == date + "-" + slot;
    assert rest[|date|] == '-';
    assert rest[|date| + 1..] == slot;
    LastHyphenUnique(rest, |date|);
    assert rest[..|date|] == date;
  }

  /** As written, a prefixed field is cut at the first hyphen after its date, whatever follows. */
  lemma AsWrittenCutsAfterDate(date: string, tail: string)
    requires '-' !in date
    ensures ParseKeyAsWritten(Prefix + date + "-" + tail) == Some((date, tail))
  {
    var rest := date + "-" + tail;
    var key := Prefix + rest;
    assert key == Prefix + date + "-" + tail;
    assert key[..|Prefix|] == Prefix && key[|Prefix|..] == rest;
    PrefixedKeyFirstHyphen(key);
    assert rest[..|date|] == date && rest[|date| + 1..] == tail;
    FirstHyphenUnique(rest, |date|);
  }

  /** The field the form sends for an ISO date is cut at the date's own hyphens. */
  lemma SplitCutsIsoDate()
    ensures ParseKeyAsWritten("avail-2024-06-10-morning") == Some(("2024", "06-10-morning"))
  {
    assert "avail-2024-06-10-morning" == Prefix + "2024" + "-" + "06-10-morning";
    AsWrittenCutsAfterDate("2024", "06-10-morning");
  }

  /** The intended parse keeps the same field's date whole. */
  lemma RsplitKeepsIsoDate()
    ensures ParseKey("avail-2024-06-10-morning") == Some(("2024-06-10", "morning"))
  {
    assert "avail-2024-06-10-morning" == Prefix + "2024-06-10" + "-" + "morning";
    ParseKeyRoundTrip("2024-06-10", "morning");
  }

  // ---------------------------------------------------------------------
  // Collecting `form_avail`

  /** The pairs a parser extracts from the field names, as `form_avail` records them. */
  function Collect(keys: seq<string>, parse: string -> Option<(string, string)>): (r: set<(string, string)>)
    ensures forall i :: 0 <= i < |keys| && parse(keys[i]).Some? ==> parse(keys[i]).value in r
    decreases |keys|
  {
    if keys == [] then {}
    else
      var r := parse(keys[|keys| - 1]);
      Collect(keys[..|keys| - 1], parse) + (if r.Some? then {r.value} else {})
  }

  lemma {:induction false} CollectSpec(keys: seq<string>, parse: string -> Option<(string, string)>, p: (string, string))
    ensures p in Collect(keys, parse) <==> exists i :: 0 <= i < |keys| && parse(keys[i]) == Some(p)
    decreases |keys|
  {
    if keys != [] {
      var init := keys[..|keys| - 1];
      CollectSpec(init, parse, p);
      if p in Collect(init, parse) {
        var i :| 0 <= i < |init| && parse(init[i]) == Some(p);
        assert keys[i] == init[i];
      }
      if i :| 0 <= i < |keys| && parse(keys[i]) == Some(p) {
        if i < |keys| - 1 {
          assert init[i] == keys[i];
        }
      }
    }
  }

  /** `form_avail` under the evidently intended parse. */
  function FormPairs(keys: seq<string>): (r: set<(string, string)>)
    ensures forall p :: p in r ==> '-' !in p.1 && exists i :: 0 <= i < |keys| && keys[i] == Prefix + p.0 + "-" + p.1
  {
    var r := Collect(keys, ParseKey);
    assert forall p :: p in r ==> '-' !in p.1 && exists i :: 0 <= i < |keys| && keys[i] == Prefix + p.0 + "-" + p.1 by {
      forall p | p in r
        ensures '-' !in p.1 && exists i :: 0 <= i < |keys| && keys[i] == Prefix + p.0 + "-" + p.1
      {
        CollectSpec(keys, ParseKey, p);
        var i :| 0 <= i < |keys| && ParseKey(keys[i]) == Some(p);
        assert keys[i] == Prefix + p.0 + "-" + p.1;
      }
    }
    r
  }

  /** `form_avail` under the split as written. */
  function AsWrittenPairs(keys: seq<string>): (r: set<(string, string)>)
    ensures forall p :: p in r ==> '-' !in p.0 && exists i :: 0 <= i < |keys| && keys[i] == Prefix + p.0 + "-" + p.1
  {
    var r := Collect(keys, ParseKeyAsWritten);
    assert forall p :: p in r ==> '-' !in p.0 && exists i :: 0 <= i < |keys| && keys[i] == Prefix + p.0 + "-" + p.1 by {
      forall p | p in r
        ensures '-' !in p.0 && exists i :: 0 <= i < |keys| && keys[i] == Prefix + p.0 + "-" + p.1
      {
        CollectSpec(keys, ParseKeyAsWritten, p);
        var i :| 0 <= i < |keys| && ParseKeyAsWritten(keys[i]) == Some(p);
        assert keys[i] == Prefix + p.0 + "-" + p.1;
      }
    }
    r
  }

  /** The loop over `request.form` (app.py:870-877), with the intended parse. */
  method CollectFormAvailability(keys: seq<string>) returns (parsed: set<(string, string)>)
    ensures parsed == FormPairs(keys)
    ensures forall p :: p in parsed <==> exists i :: 0 <= i < |keys| && ParseKey(keys[i]) == Some(p)
  {
    parsed := {};
    var i := 0;
    while i < |keys|
      invariant 0 <= i <= |keys|
      invariant parsed == Collect(keys[..i], ParseKey)
    {
      var r := ParseKey(keys[i]);
      if r.Some? {
        parsed := parsed + {r.value};
      }
      assert keys[..i + 1][..i] == keys[..i];
      i := i + 1;
    }
    assert keys[..|keys|] == keys;
    forall p ensures p in parsed <==> exists i :: 0 <= i < |keys| && ParseKey(keys[i]) == Some(p) {
      CollectSpec(keys, ParseKey, p);
    }
  }

  /** No pair parsed as written has a hyphen in its date. */
  lemma AsWrittenDatesHaveNoHyphen(keys: seq<string>, p: (string, string))
    ensures p in AsWrittenPairs(keys) ==> '-' !in p.0
  {
    CollectSpec(keys, ParseKeyAsWritten, p);
  }

  /**
   * As written, whatever boxes the doctor ticks, no cell of the seven-day
   * grid reads as ticked: every form submission closes all of them.
   */
  lemma AsWrittenFormOpensNothing(keys: seq<string>, today: Date, i: int, slot: string)
    requires WindowFits(today) && 0 <= i < WindowLength
    ensures FormValue(AsWrittenPairs(keys), WindowIso(today)[i], slot) == 0
  {
    var date := WindowIso(today)[i];
    AsWrittenDatesHaveNoHyphen(keys, (date, slot));
    assert date[4] == '-';
  }

  /** With the intended parse, a cell is opened exactly when its box was ticked. */
  lemma FormCellOpenIffSubmitted(keys: seq<string>, date: string, slot: string)
    requires '-' !in slot
    ensures FormValue(FormPairs(keys), date, slot) == 1 <==> Prefix + date + "-" + slot in keys
  {
    var key := Prefix + date + "-" + slot;
    CollectSpec(keys, ParseKey, (date, slot));
    if key in keys {
      var i :| 0 <= i < |keys| && keys[i] == key;
      ParseKeyRoundTrip(date, slot);
    }
  }
}
