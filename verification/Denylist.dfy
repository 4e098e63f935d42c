/** The query parameters that never reach storage. */
module Denylist {
  import opened Bytes
  import opened Text

  /** The names denied in every deployment. */
  const BUILTIN: seq<string> := [
    "access_token", "api_key", "apikey", "authorization", "email", "id_token", "otp",
    "passwd", "password", "pwd", "refresh_token", "secret", "token"
  ]

  /** Lower-cased names, and the case folding they are looked up with. */
  datatype Denylist = Denylist(names: set<Bytes>, lower: Bytes -> Bytes) {
    predicate Has(name: Bytes) { lower(name) in names }
  }

  ghost function AsciiSet(texts: seq<string>): set<Bytes> {
    set text | text in texts :: Ascii(text)
  }

  ghost function Floor(): set<Bytes> {
    AsciiSet(BUILTIN)
  }

  /** How a configured name is stored: trimmed and lower-cased. */
  function StoredAs(lower: Bytes -> Bytes): Bytes -> Bytes {
    x => lower(TrimSpace(x))
  }

  /** The configured names as they are stored, blanks dropped. */
  ghost function Configured(stored: Bytes -> Bytes, extra: seq<Bytes>): set<Bytes> {
    set x | x in extra && stored(x) != [] :: stored(x)
  }

  lemma ConfiguredStep(stored: Bytes -> Bytes, extra: seq<Bytes>, x: Bytes)
    ensures Configured(stored, extra + [x]) == Configured(stored, extra) + (if stored(x) != [] then {stored(x)} else {})
  {
    assert forall y :: y in extra + [x] <==> y in extra || y == x;
  }

  lemma AsciiStep(texts: seq<string>, text: string)
    ensures AsciiSet(texts + [text]) == AsciiSet(texts) + {Ascii(text)}
  {
    assert forall t :: t in texts + [text] <==> t in texts || t == text;
  }

  method AddFloor(floor: seq<string>) returns (names: set<Bytes>)
    ensures names == AsciiSet(floor)
  {
    names := {};
    for i := 0 to |floor|
      invariant names == AsciiSet(floor[..i])
    {
      AsciiStep(floor[..i], floor[i]);
      assert floor[..i + 1] == floor[..i] + [floor[i]];
      names := names + {Ascii(floor[i])};
    }
    assert floor[..|floor|] == floor;
  }

  method AddConfigured(names: set<Bytes>, stored: Bytes -> Bytes, extra: seq<Bytes>) returns (r: set<Bytes>)
    ensures r == names + Configured(stored, extra)
  {
    r := names;
    for i := 0 to |extra|
      invariant r == names + Configured(stored, extra[..i])
    {
      ConfiguredStep(stored, extra[..i], extra[i]);
      assert extra[..i + 1] == extra[..i] + [extra[i]];
      var name := stored(extra[i]);
      if name != [] {
        r := r + {name};
      }
    }
    assert extra[..|extra|] == extra;
  }

  method NewDenylist(lower: Bytes -> Bytes, extra: seq<Bytes>) returns (d: Denylist)
    ensures d == Denylist(Floor() + Configured(StoredAs(lower), extra), lower)
  {
    var names := AddFloor(BUILTIN);
    names := AddConfigured(names, StoredAs(lower), extra);
    d := Denylist(names, lower);
  }

  /** A name is denied exactly when its lower-cased form is that of a built-in or of a configured
      name; so the floor always holds, however the rest is configured. */
  lemma DeniedExactly(lower: Bytes -> Bytes, extra: seq<Bytes>, name: Bytes)
    ensures Denylist(Floor() + Configured(StoredAs(lower), extra), lower).Has(name) <==>
            || (exists text :: text in BUILTIN && Ascii(text) == lower(name))
            || (lower(name) != [] && exists i :: 0 <= i < |extra| && lower(TrimSpace(extra[i])) == lower(name))
  {
    if i :| 0 <= i < |extra| && lower(TrimSpace(extra[i])) == lower(name) {
      assert extra[i] in extra;
    }
  }

  /** Whatever is configured, these thirteen names are denied in every spelling that folds to them. */
  lemma FloorIsDenied(lower: Bytes -> Bytes, extra: seq<Bytes>, name: Bytes, text: string)
    requires lower(name) == Ascii(text)
    requires text == "access_token" || text == "api_key" || text == "apikey" || text == "authorization" ||
             text == "email" || text == "id_token" || text == "otp" || text == "passwd" || text == "password" ||
             text == "pwd" || text == "refresh_token" || text == "secret" || text == "token"
    ensures Denylist(Floor() + Configured(StoredAs(lower), extra), lower).Has(name)
  {
    hide Ascii;
    assert text in BUILTIN;
  }

  /** Configuring more names denies more, and denylists built from the same names are equal, whatever
      the order and the repetitions. */
  lemma MoreNamesDenyMore(lower: Bytes -> Bytes, extra: seq<Bytes>, more: seq<Bytes>, name: Bytes)
    requires forall x | x in extra :: x in more
    ensures var few := Denylist(Floor() + Configured(StoredAs(lower), extra), lower);
            var many := Denylist(Floor() + Configured(StoredAs(lower), more), lower);
            (few.Has(name) ==> many.Has(name)) && ((forall x | x in more :: x in extra) ==> few == many)
  {
    ConfiguredIsMonotone(StoredAs(lower), extra, more);
  }

  lemma ConfiguredIsMonotone(stored: Bytes -> Bytes, extra: seq<Bytes>, more: seq<Bytes>)
    requires forall x | x in extra :: x in more
    ensures Configured(stored, extra) <= Configured(stored, more)
    ensures (forall x | x in more :: x in extra) ==> Configured(stored, extra) == Configured(stored, more)
  {
  }
}
