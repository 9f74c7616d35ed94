/** The comma-separated repository allowlist and its normal form. */
module Allowlist {
  import opened Strings

  /** The trimmed, non-empty pieces in order. */
  function Entries(pieces: seq<string>): (r: seq<string>)
    ensures forall e | e in r :: e != "" && Trimmed(e)
    ensures (forall p | p in pieces :: ',' !in p) ==> forall e | e in r :: ',' !in e
  {
    if pieces == [] then []
    else
      var e := TrimSpace(pieces[|pieces| - 1]);
      var front := Entries(pieces[..|pieces| - 1]);
      if e != "" then front + [e] else front
  }

  function Parsed(raw: string): seq<string> {
    Entries(Split(raw, ','))
  }

  lemma EntriesSnoc(pieces: seq<string>, i: nat)
    requires i < |pieces|
    ensures Entries(pieces[..0]) == []
    ensures var e := TrimSpace(pieces[i]);
            Entries(pieces[..i + 1]) == if e != "" then Entries(pieces[..i]) + [e] else Entries(pieces[..i])
  {
    hide TrimSpace;
    assert pieces[..i + 1][..i] == pieces[..i];
  }

  lemma NothingParsed()
    ensures Parsed("") == [] && Entries([]) == []
  {
    assert Split("", ',') == [""];
    assert [""][..0] == [];
  }

  method ParseRepoAllowlist(raw: string) returns (result: seq<string>)
    ensures result == Parsed(raw)
  {
    hide Entries, TrimSpace, Split;
    if raw == "" {
      NothingParsed();
      return [];
    }
    NothingParsed();
    result := [];
    var pieces := Split(raw, ',');
    for i := 0 to |pieces|
      invariant result == Entries(pieces[..i])
    {
      var entry := TrimSpace(pieces[i]);
      EntriesSnoc(pieces, i);
      if entry != "" {
        result := result + [entry];
      }
    }
    assert pieces[..|pieces|] == pieces;
  }

  lemma {:induction false} EntriesConcat(a: seq<string>, b: seq<string>)
    ensures Entries(a + b) == Entries(a) + Entries(b)
  {
    if b == [] {
      assert a + b == a;
    } else {
      assert (a + b)[..|a + b| - 1] == a + b[..|b| - 1];
      EntriesConcat(a, b[..|b| - 1]);
    }
  }

  lemma {:induction false} EntriesOfNormal(es: seq<string>)
    requires forall e | e in es :: e != "" && Trimmed(e)
    ensures Entries(es) == es
  {
    if es != [] {
      assert forall e | e in es[..|es| - 1] :: e in es;
      EntriesOfNormal(es[..|es| - 1]);
    }
  }

  /** Every entry is trimmed, non-empty and comma-free. */
  lemma EntriesAreClean(raw: string, e: string)
    requires e in Parsed(raw)
    ensures e != "" && Trimmed(e) && ',' !in e
  {
    assert forall p | p in Split(raw, ',') :: ',' !in p;
  }

  /** Writing a parsed list out and parsing it again changes nothing. */
  lemma NormalForm(raw: string)
    ensures Parsed(Join(Parsed(raw), ',')) == Parsed(raw)
  {
    var es := Parsed(raw);
    assert forall p | p in Split(raw, ',') :: ',' !in p;
    if es == [] {
      assert Split("", ',') == [""];
      assert [""][..0] == [];
    } else {
      SplitJoin(es, ',');
      EntriesOfNormal(es);
    }
  }

  /** A comma between two lists is concatenation. */
  lemma CommaConcatenates(a: string, b: string)
    ensures Parsed(a + "," + b) == Parsed(a) + Parsed(b)
  {
    SplitConcat(a, b, ',');
    assert a + "," + b == a + [','] + b;
    EntriesConcat(Split(a, ','), Split(b, ','));
  }

  /** A text without a comma gives itself without its outer spaces, or nothing when it is all spaces. */
  lemma SingleEntry(raw: string)
    requires ',' !in raw
    ensures AllSpace(raw) <==> Parsed(raw) == []
    ensures !AllSpace(raw) ==>
              exists before, entry, after ::
                && Parsed(raw) == [entry] && Trimmed(entry) && raw == before + entry + after
                && AllSpace(before) && AllSpace(after)
  {
    SplitFree(raw, ',');
    assert [raw][..0] == [];
    var before, after := TrimsSpacesOnly(raw);
    var t := TrimSpace(raw);
    if t == "" {
      assert raw == before + after;
    } else {
      assert t[0] in raw && !IsSpace(t[0]);
      assert Parsed(raw) == [t];
    }
  }
}
