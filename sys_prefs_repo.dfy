/** The key/value preference table: `save_pref` upserts `str(value)`, and
    `load_pref` turns the stored text back into a bool, an int, a float or
    the text itself, in that order of preference. */
module SysPrefs {
  import opened Common
  import opened PyNumbers

  /** A value handed to `save_pref` (float values are not modelled). */
  datatype PrefValue = VNone | VBool(b: bool) | VInt(i: int) | VStr(s: string)

  /** What `load_pref` hands back: the caller's default or a decoded value. */
  datatype Pref = PNone | PBool(b: bool) | PInt(i: int) | PFloat(f: PyFloat) | PStr(s: string)

  /** `str(value)`. */
  function Str(v: PrefValue): string
  {
    match v
    case VNone => "None"
    case VBool(b) => if b then "True" else "False"
    case VInt(i) => IntToString(i)
    case VStr(s) => s
  }

  /** The decision chain on a stored text: `"true"`/`"false"` in any case,
      then `int()`, then `float()`, then the text itself. */
  function Decode(s: string): Pref
  {
    if Lower(s) == "true" || Lower(s) == "false" then PBool(Lower(s) == "true")
    else match ParseInt(s)
      case Some(n) => PInt(n)
      case None =>
        match ParseFloat(s)
        case Some(f) => PFloat(f)
        case None => PStr(s)
  }

  /** Saving a bool and loading it gives the bool back ("True"/"False"). */
  lemma {:induction false} DecodeSavedBool(b: bool)
    ensures Decode(Str(VBool(b))) == PBool(b)
  {
    var s := Str(VBool(b));
    var word := if b then "true" else "false";
    assert Lower(s) == word by {
      forall i | 0 <= i < |s| ensures Lower(s)[i] == word[i] {
      }
    }
  }

  /** Saving an int and loading it gives the int back: its decimal text is
      not a boolean word and parses as that integer. */
  lemma {:induction false} DecodeSavedInt(n: int)
    ensures Decode(Str(VInt(n))) == PInt(n)
  {
    var s := IntToString(n);
    RenderedSplits(n);
    EndsInDigitNotWord(s);
    assert !(Lower(s) == "true" || Lower(s) == "false");
    ParseIntOfRendered(n);
  }

  lemma {:induction false} EndsInDigitNotWord(s: string)
    requires |s| > 0 && IsDigit(s[|s| - 1])
    ensures Lower(s) != "true" && Lower(s) != "false"
  {
    assert Lower(s)[|s| - 1] == s[|s| - 1];
    assert !IsDigit("true"[3]) && !IsDigit("false"[4]);
  }

  /** Saving None stores "None", which loads back as that text. */
  lemma {:induction false} DecodeSavedNone()
    ensures Decode(Str(VNone)) == PStr("None")
  {
    var s := "None";
    assert Lower(s) == "none" by {
      forall i | 0 <= i < |s| ensures Lower(s)[i] == "none"[i] {
      }
    }
    LetterLedIsText(s);
  }

  predicate IsLetter(c: char)
  {
    'A' <= c <= 'Z' || 'a' <= c <= 'z'
  }

  lemma {:induction false} LetterLedMantissa(m: string)
    requires |m| > 0 && IsLetter(m[0])
    ensures Mantissa(m).None?
  {
    match FirstOf(m, '.', '.')
    case None =>
    case Some(d) => assert m[..d][0] == m[0];
  }

  lemma {:induction false} LetterLedDecimal(s: string)
    requires |s| > 0 && IsLetter(s[0])
    ensures Decimal(s).None?
  {
    LetterLedMantissa(s);
    match FirstOf(s, 'e', 'E')
    case None =>
    case Some(k) =>
      if k > 0 {
        assert s[..k][0] == s[0];
        LetterLedMantissa(s[..k]);
      }
  }

  lemma {:induction false} LetterLedNotInt(s: string)
    requires |s| > 0 && IsLetter(s[0]) && !IsSpace(s[|s| - 1])
    ensures SplitSign(Strip(s)) == (false, s)
    ensures ParseInt(s).None?
  {
    StripUnspaced(s);
  }

  /** Text that starts with a letter and is none of the special words is
      neither a boolean nor a number, so it loads back unchanged. */
  lemma {:induction false} LetterLedIsText(s: string)
    requires |s| > 0 && IsLetter(s[0]) && !IsSpace(s[|s| - 1])
    requires Lower(s) != "true" && Lower(s) != "false"
    requires Lower(s) != "inf" && Lower(s) != "infinity" && Lower(s) != "nan"
    ensures Decode(s) == PStr(s)
  {
    LetterLedNotInt(s);
    LetterLedNotFloat(s);
  }

  lemma {:induction false} LetterLedNotFloat(s: string)
    requires |s| > 0 && IsLetter(s[0]) && !IsSpace(s[|s| - 1])
    requires Lower(s) != "inf" && Lower(s) != "infinity" && Lower(s) != "nan"
    ensures ParseFloat(s).None?
  {
    LetterLedNotInt(s);
    LetterLedDecimal(s);
  }

  /** The int test comes before the float test: a text both accept loads as
      an int, never as the equal float. */
  lemma {:induction false} DecodePrefersInt(s: string)
    requires Lower(s) != "true" && Lower(s) != "false"
    requires ParseInt(s).Some?
    ensures Decode(s) == PInt(ParseInt(s).value)
    ensures ParseFloat(s) == Some(Finite(ParseInt(s).value as real))
  {
    IntsAreFloats(s);
  }

  /** The boolean words win over every numeric reading. */
  lemma {:induction false} DecodeBoolWords(s: string)
    ensures Lower(s) == "true" ==> Decode(s) == PBool(true)
    ensures Lower(s) == "false" ==> Decode(s) == PBool(false)
    ensures Decode(s).PBool? ==> Lower(s) == "true" || Lower(s) == "false"
  {
  }

  /** Only text that no parser accepts comes back unchanged as text. */
  lemma {:induction false} DecodeTextOnlyWhenNotNumeric(s: string)
    ensures Decode(s).PStr? <==>
              Lower(s) != "true" && Lower(s) != "false" && ParseInt(s).None? && ParseFloat(s).None?
    ensures Decode(s).PStr? ==> Decode(s).s == s
  {
  }

  /** The `system_preferences` table, keyed by preference name. */
  class SystemPrefsRepository {
    var table: map<string, string>

    constructor (stored: map<string, string>)
      ensures table == stored
    {
      table := stored;
    }

    /** `save_pref`: `INSERT ... ON CONFLICT (key) DO UPDATE`; one row per key,
        holding the latest `str(value)`, other keys untouched. */
    method SavePref(key: string, value: PrefValue)
      modifies this
      ensures table == old(table)[key := Str(value)]
      ensures key in table && table[key] == Str(value)
      ensures forall k :: k != key ==> (k in table <==> k in old(table))
      ensures forall k :: k != key && k in table ==> table[k] == old(table)[k]
    {
      table := table[key := Str(value)];
    }

    /** `load_pref`: the default for a missing key, the decoded text otherwise. */
    method LoadPref(key: string, default: Pref) returns (r: Pref)
      ensures key !in table ==> r == default
      ensures key in table ==> r == Decode(table[key])
    {
      if key !in table {
        return default;
      }
      var val := table[key];
      var lowered := Lower(val);
      if lowered == "true" || lowered == "false" {
        return PBool(lowered == "true");
      }
      var asInt := ParseInt(val);
      if asInt.Some? {
        return PInt(asInt.value);
      }
      var asFloat := ParseFloat(val);
      if asFloat.Some? {
        return PFloat(asFloat.value);
      }
      return PStr(val);
    }
  }

  /** What saving then loading the same key gives, for each kind of value. */
  lemma {:induction false} SaveThenLoad(table: map<string, string>, key: string, v: PrefValue)
    ensures var t := table[key := Str(v)];
            && key in t
            && (v.VBool? ==> Decode(t[key]) == PBool(v.b))
            && (v.VInt? ==> Decode(t[key]) == PInt(v.i))
            && (v.VNone? ==> Decode(t[key]) == PStr("None"))
            && (v.VStr? ==> (Decode(t[key]) == PStr(v.s) <==>
                               Lower(v.s) != "true" && Lower(v.s) != "false"
                               && ParseInt(v.s).None? && ParseFloat(v.s).None?))
  {
    match v
    case VNone => DecodeSavedNone();
    case VBool(b) => DecodeSavedBool(b);
    case VInt(n) => DecodeSavedInt(n);
    case VStr(s) => DecodeTextOnlyWhenNotNumeric(s);
  }
}
