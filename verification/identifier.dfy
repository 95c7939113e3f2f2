/** The pure parts of `Identifier.java`: which reference files are loaded,
    how a reference file name becomes a tile name, how the name-to-image index
    is built, and how the best-matching reference is chosen for a meld.

    The feature matching that produces the inlier counts (KAZE descriptors,
    FLANN matching, the ratio test, RANSAC homography) and the thread pool
    that runs it are not part of this model: the counts arrive as inputs. */
module Identification {
  import opened Wrappers
  import opened Text

  /** A pattern to search for; `replaceAll` with an empty pattern would
      match between every pair of characters, and no rule uses one. */
  type Pattern = s: string | |s| > 0 witness "-"

  /** A literal find-and-replace step: every occurrence of `find` becomes
      `replace`. */
  datatype Rewrite = Rewrite(find: Pattern, replace: string)

  /** The suit rewrites, applied in this order. */
  const SuitRewrites: seq<Rewrite> := [
    Rewrite("circles", "p"), Rewrite("sticks", "s"), Rewrite("wan", "m"), Rewrite("honor", "")
  ]

  /** The value rewrites for the numbered suits, applied first. */
  const NumberRewrites: seq<Rewrite> := [
    Rewrite("one", "1"), Rewrite("two", "2"), Rewrite("three", "3"), Rewrite("four", "4"),
    Rewrite("five", "5"), Rewrite("six", "6"), Rewrite("seven", "7"), Rewrite("eight", "8"),
    Rewrite("nine", "9")
  ]

  /** The value rewrites for the winds and dragons, applied after the numbers. */
  const HonorRewrites: seq<Rewrite> := [
    Rewrite("east", "e"), Rewrite("south", "s"), Rewrite("west", "w"),
    Rewrite("north", "n"), Rewrite("red", "r"), Rewrite("white", "w"), Rewrite("green", "g")
  ]

  /** All value rewrites, in the order they are applied. */
  const ValueRewrites: seq<Rewrite> := NumberRewrites + HonorRewrites

  /** A chain of `replaceAll` calls, first rule first. */
  function ApplyRewrites(s: string, rules: seq<Rewrite>): string
    decreases |rules|
  {
    if |rules| == 0 then s
    else ApplyRewrites(ReplaceAll(s, rules[0].find, rules[0].replace), rules[1..])
  }

  /** None of the rules' patterns occurs in `s`. */
  predicate NoneOccur(s: string, rules: seq<Rewrite>) {
    forall i :: 0 <= i < |rules| ==> !Contains(s, rules[i].find)
  }

  /** Running two chains one after the other is running their
      concatenation. */
  lemma {:induction false} ApplyRewritesAppend(s: string, a: seq<Rewrite>, b: seq<Rewrite>)
    ensures ApplyRewrites(s, a + b) == ApplyRewrites(ApplyRewrites(s, a), b)
    decreases |a|
  {
    if |a| > 0 {
      var t := ReplaceAll(s, a[0].find, a[0].replace);
      assert (a + b)[0] == a[0];
      assert (a + b)[1..] == a[1..] + b;
      ApplyRewritesAppend(t, a[1..], b);
      assert ApplyRewrites(s, a + b) == ApplyRewrites(t, a[1..] + b);
    } else {
      assert a + b == b;
    }
  }

  /** A chain none of whose patterns occurs leaves the string unchanged. */
  lemma {:induction false} NoRuleApplies(s: string, rules: seq<Rewrite>)
    requires NoneOccur(s, rules)
    ensures ApplyRewrites(s, rules) == s
    decreases |rules|
  {
    if |rules| > 0 {
      NoRuleApplies(s, rules[1..]);
    }
  }

  /** When only rule `k` finds anything in `s`, and none of the later rules
      finds anything in its output, the chain amounts to rule `k` alone. */
  lemma {:induction false} OnlyRuleApplies(s: string, rules: seq<Rewrite>, k: nat)
    requires k < |rules|
    requires NoneOccur(s, rules[..k])
    requires NoneOccur(ReplaceAll(s, rules[k].find, rules[k].replace), rules[k + 1..])
    ensures ApplyRewrites(s, rules) == ReplaceAll(s, rules[k].find, rules[k].replace)
    decreases k
  {
    if k == 0 {
      NoRuleApplies(ReplaceAll(s, rules[0].find, rules[0].replace), rules[1..]);
    } else {
      assert !Contains(s, rules[..k][0].find);
      assert rules[1..][..k - 1] == rules[..k][1..];
      assert rules[1..][k..] == rules[k + 1..];
      OnlyRuleApplies(s, rules[1..], k - 1);
    }
  }

  /** A reference image is loaded when its file name ends with ".jpg"
      (case-sensitive) and does not contain "resized". */
  predicate IsReferenceFile(fileName: string) {
    EndsWith(fileName, ".jpg") && !Contains(fileName, "resized")
  }

  /** The loading filter by position: the last four characters are exactly
      ".jpg", and "resized" starts at no position of the name. */
  lemma ReferenceFileByPosition(fileName: string)
    ensures IsReferenceFile(fileName) <==>
      && |fileName| >= 4 && fileName[|fileName| - 4..] == ".jpg"
      && forall k :: !OccursAt(fileName, "resized", k)
  {
  }

  /** `fileNameToTileName` raises `ArrayIndexOutOfBoundsException` when the
      name has no second field. */
  datatype NameError = MissingValueField(fileName: string)

  /** The file name with every ".jpg" removed: the text that
      `fileNameToTileName` splits. */
  function Stem(fileName: string): string {
    ReplaceAll(fileName, ".jpg", "")
  }

  /** `fileNameToTileName`: remove every ".jpg", split on "-", take field 0
      as the suit and field 1 as the value, rewrite both, and return the
      value followed by the suit. A failure names the file. */
  function TileName(fileName: string): (r: Result<string, NameError>)
    ensures r.Failure? ==> r.error == MissingValueField(fileName)
  {
    var splits := JavaSplit(Stem(fileName), "-");
    if |splits| < 2 then
      Failure(MissingValueField(fileName))
    else
      var suit := ApplyRewrites(splits[0], SuitRewrites);
      var value := ApplyRewrites(splits[1], ValueRewrites);
      Success(value + suit)
  }

  /** What `fileNameToTileName` computes, by position in the stem: it fails
      exactly when the stem has no second field left after `split` drops the
      trailing empty ones, that is when no '-' is followed, somewhere later,
      by a character other than '-'. Otherwise the suit is the stem up to its
      first '-' and the value is the text from there up to the next '-'. */
  lemma TileNameFields(fileName: string)
    ensures TileName(fileName).Failure? <==> !HasSecondField(Stem(fileName), '-')
    ensures TileName(fileName).Success? ==>
      var stem := Stem(fileName);
      var afterDash := stem[FirstIndex(stem, '-') + 1..];
      TileName(fileName).value
        == ApplyRewrites(afterDash[..FirstIndex(afterDash, '-')], ValueRewrites)
         + ApplyRewrites(stem[..FirstIndex(stem, '-')], SuitRewrites)
  {
    JavaSplitFields(Stem(fileName), '-');
  }

  /** A file name without a "-" has no value field, so the conversion fails. */
  lemma NoDashFails(fileName: string)
    requires '-' !in fileName
    ensures TileName(fileName) == Failure(MissingValueField(fileName))
  {
    var stripped := ReplaceAll(fileName, ".jpg", "");
    assert '-' !in stripped;
    ContainsChar(stripped, '-');
  }

  /** The name of a reference image in the layout the conversion expects:
      "<suit>-<value>.jpg". */
  function PlainName(suit: string, value: string): string {
    suit + "-" + value + ".jpg"
  }

  /** For a file named `suit-value.jpg` whose parts contain neither '-' nor
      '.', the tile name is the rewritten value followed by the rewritten
      suit. */
  lemma TileNameOfPlainFile(suit: string, value: string)
    requires '-' !in suit && '.' !in suit && '-' !in value && '.' !in value
    requires |value| > 0
    ensures TileName(PlainName(suit, value))
         == Success(ApplyRewrites(value, ValueRewrites) + ApplyRewrites(suit, SuitRewrites))
  {
    var stem := suit + "-" + value;
    assert '.' !in stem;
    assert PlainName(suit, value) == stem + ".jpg";
    RemoveTrailingPattern(stem, ".jpg");
    SplitTwoFields(suit, value, '-', []);
    assert [] + suit == suit;
    assert '-' in stem by { assert stem[|suit|] == '-'; }
    ContainsChar(stem, '-');
    assert Split(stem, "-") == [suit, value];
  }


  /** A pattern with a character that `s` lacks does not occur in `s`. */
  lemma MissingChar(s: string, p: string, c: char)
    requires c in p && c !in s
    ensures !Contains(s, p)
  {
    var j :| 0 <= j < |p| && p[j] == c;
    forall k | 0 <= k && k + |p| <= |s| ensures !OccursAt(s, p, k) {
      assert s[k..k + |p|][j] == s[k + j] != c;
    }
  }

  /** No number word occurs in "west". */
  lemma NumbersMissWest()
    ensures NoneOccur("west", NumberRewrites)
  {
    var west := "west";
    forall i | 0 <= i < 9 ensures !Contains(west, NumberRewrites[i].find) {
      var p := NumberRewrites[i].find;
      if i == 0 { MissingChar(west, p, 'o'); }
      else if i == 1 { MissingChar(west, p, 'o'); }
      else if i == 2 { MissingChar(west, p, 'h'); }
      else if i == 3 { MissingChar(west, p, 'o'); }
      else if i == 4 { MissingChar(west, p, 'f'); }
      else if i == 5 { MissingChar(west, p, 'i'); }
      else if i == 6 { MissingChar(west, p, 'v'); }
      else if i == 7 { MissingChar(west, p, 'g'); }
      else { MissingChar(west, p, 'n'); }
    }
  }

  /** No number word occurs in "white". */
  lemma NumbersMissWhite()
    ensures NoneOccur("white", NumberRewrites)
  {
    var white := "white";
    forall i | 0 <= i < 9 ensures !Contains(white, NumberRewrites[i].find) {
      var p := NumberRewrites[i].find;
      if i == 0 { MissingChar(white, p, 'o'); }
      else if i == 1 { MissingChar(white, p, 'o'); }
      else if i == 2 { MissingChar(white, p, 'r'); }
      else if i == 3 { MissingChar(white, p, 'o'); }
      else if i == 4 { MissingChar(white, p, 'f'); }
      else if i == 5 { MissingChar(white, p, 's'); }
      else if i == 6 { MissingChar(white, p, 's'); }
      else if i == 7 { MissingChar(white, p, 'g'); }
      else { MissingChar(white, p, 'n'); }
    }
  }

  /** Among the wind and dragon rules, "west" is rewritten by the third alone. */
  lemma WestHonorValue()
    ensures ApplyRewrites("west", HonorRewrites) == "w"
  {
    var s := "west";
    forall i | 0 <= i < 2 ensures !Contains(s, HonorRewrites[i].find) {
      var p := HonorRewrites[i].find;
      if i == 0 { MissingChar(s, p, 'a'); } else { MissingChar(s, p, 'o'); }
    }
    assert NoneOccur(s, HonorRewrites[..2]);
    assert HonorRewrites[2] == Rewrite("west", "w");
    assert ReplaceAll("west", "west", "w") == "w";
    forall i | 3 <= i < 7 ensures !Contains("w", HonorRewrites[i].find) {
      var p := HonorRewrites[i].find;
      if i == 3 { MissingChar("w", p, 'n'); }
      else if i == 4 { MissingChar("w", p, 'r'); }
      else if i == 5 { MissingChar("w", p, 'h'); }
      else { MissingChar("w", p, 'g'); }
    }
    assert NoneOccur("w", HonorRewrites[3..]);
    OnlyRuleApplies(s, HonorRewrites, 2);
  }

  /** Among the wind and dragon rules, "white" is rewritten by the sixth alone. */
  lemma WhiteHonorValue()
    ensures ApplyRewrites("white", HonorRewrites) == "w"
  {
    var s := "white";
    forall i | 0 <= i < 5 ensures !Contains(s, HonorRewrites[i].find) {
      var p := HonorRewrites[i].find;
      if i == 0 { MissingChar(s, p, 'a'); }
      else if i == 1 { MissingChar(s, p, 'o'); }
      else if i == 2 { MissingChar(s, p, 's'); }
      else if i == 3 { MissingChar(s, p, 'o'); }
      else { MissingChar(s, p, 'r'); }
    }
    assert NoneOccur(s, HonorRewrites[..5]);
    assert HonorRewrites[5] == Rewrite("white", "w");
    assert ReplaceAll("white", "white", "w") == "w";
    assert !Contains("w", HonorRewrites[6].find) by {
      MissingChar("w", HonorRewrites[6].find, 'g');
    }
    assert NoneOccur("w", HonorRewrites[6..]);
    OnlyRuleApplies(s, HonorRewrites, 5);
  }

  /** The value rewrites are the number rules followed by the wind and
      dragon rules. */
  lemma ValueChain(s: string, m: string, t: string)
    requires ApplyRewrites(s, NumberRewrites) == m && ApplyRewrites(m, HonorRewrites) == t
    ensures ApplyRewrites(s, ValueRewrites) == t
  {
    ApplyRewritesAppend(s, NumberRewrites, HonorRewrites);
  }

  /** The value field "west" becomes "w". */
  lemma WestValue()
    ensures ApplyRewrites("west", ValueRewrites) == "w"
  {
    NumbersMissWest();
    NoRuleApplies("west", NumberRewrites);
    WestHonorValue();
    ValueChain("west", "west", "w");
  }

  /** The value field "white" becomes "w" as well. */
  lemma WhiteValue()
    ensures ApplyRewrites("white", ValueRewrites) == "w"
  {
    NumbersMissWhite();
    NoRuleApplies("white", NumberRewrites);
    WhiteHonorValue();
    ValueChain("white", "white", "w");
  }

  /** "honor" is removed by the last suit rule. */
  lemma HonorSuit()
    ensures ApplyRewrites("honor", SuitRewrites) == ""
  {
    var s := "honor";
    forall i | 0 <= i < 3 ensures !Contains(s, SuitRewrites[i].find) {
      var p := SuitRewrites[i].find;
      if i == 0 { MissingChar(s, p, 'c'); }
      else if i == 1 { MissingChar(s, p, 's'); }
      else { MissingChar(s, p, 'w'); }
    }
    assert NoneOccur(s, SuitRewrites[..3]);
    assert SuitRewrites[3] == Rewrite("honor", "");
    assert ReplaceAll("honor", "honor", "") == "";
    assert SuitRewrites[4..] == [];
    OnlyRuleApplies(s, SuitRewrites, 3);
  }

  /** "<suit>-west.jpg" is the tile "w" followed by the rewritten suit. */
  lemma WestTileName(suit: string)
    requires '-' !in suit && '.' !in suit
    ensures TileName(PlainName(suit, "west")) == Success("w" + ApplyRewrites(suit, SuitRewrites))
  {
    WestValue();
    TileNameOfPlainFile(suit, "west");
  }

  /** "<suit>-white.jpg" is the tile "w" followed by the rewritten suit. */
  lemma WhiteTileName(suit: string)
    requires '-' !in suit && '.' !in suit
    ensures TileName(PlainName(suit, "white")) == Success("w" + ApplyRewrites(suit, SuitRewrites))
  {
    WhiteValue();
    TileNameOfPlainFile(suit, "white");
  }

  /** Whatever the suit, "<suit>-west.jpg" and "<suit>-white.jpg" name the
      same tile, so the conversion is not injective. */
  lemma WestAndWhiteCollide(suit: string)
    requires '-' !in suit && '.' !in suit
    ensures TileName(PlainName(suit, "west")) == TileName(PlainName(suit, "white"))
    ensures PlainName(suit, "west") != PlainName(suit, "white")
  {
    WestTileName(suit);
    WhiteTileName(suit);
    assert PlainName(suit, "west")[|suit| + 2] == 'e' != 'h' == PlainName(suit, "white")[|suit| + 2];
  }

  /** A plain "<suit>-<value>.jpg" name is loaded as a reference when the
      suit does not contain "resized" and the value has no 'r'. */
  lemma PlainFileIsReference(suit: string, value: string)
    requires '-' !in suit && !Contains(suit, "resized") && 'r' !in value
    ensures IsReferenceFile(PlainName(suit, value))
  {
    var name := PlainName(suit, value);
    var p := "resized";
    assert name[|name| - 4..] == ".jpg";
    forall k | 0 <= k && k + |p| <= |name| ensures !OccursAt(name, p, k) {
      if k + |p| <= |suit| {
        assert name[k..k + |p|] == suit[k..k + |p|];
        assert !OccursAt(suit, p, k);
      } else if k <= |suit| {
        assert name[k..k + |p|][|suit| - k] == name[|suit|] == '-';
        assert '-' !in p;
      } else {
        assert name[k..k + |p|][0] == name[k] != 'r';
      }
    }
  }

  // ---------------------------------------------------------------------
  // The reference index built by `init`
  // ---------------------------------------------------------------------

  /** Why building the index failed: a name without a value field, or
      `Collectors.toMap`'s `IllegalStateException` on a repeated key. */
  datatype IndexError = BadName(cause: NameError) | DuplicateKey(key: string)

  /** The index holds `fileName` under its tile name. */
  predicate Indexed(index: map<string, string>, fileName: string) {
    TileName(fileName).Success? && TileName(fileName).value in index
    && index[TileName(fileName).value] == fileName
  }

  /** Every reference file among `files` converts to a tile name that is
      not a key of `acc`, and no two reference files share a tile name. */
  predicate Loadable(files: seq<string>, acc: map<string, string>) {
    && (forall i :: 0 <= i < |files| && IsReferenceFile(files[i]) ==>
          TileName(files[i]).Success? && TileName(files[i]).value !in acc)
    && (forall i, j :: 0 <= i < j < |files| && IsReferenceFile(files[i]) && IsReferenceFile(files[j]) ==>
          TileName(files[i]) != TileName(files[j]))
  }

  /** The stream pipeline of `init`, one file at a time in walk order: skip
      files that are not reference images, convert the name (failing on a
      missing value field) and insert it, failing on a key already present.
      It succeeds exactly when every reference file converts, to a tile name
      that is neither already a key nor shared with another reference file.
      On success every loaded file is indexed under its tile name, the keys
      already present keep their files, and every other key is the tile name
      of a loaded file. */
  function IndexFrom(files: seq<string>, acc: map<string, string>): (r: Result<map<string, string>, IndexError>)
    ensures r.Success? <==> Loadable(files, acc)
    ensures r.Success? ==> forall f :: f in files && IsReferenceFile(f) ==> Indexed(r.value, f)
    ensures r.Success? ==> forall k :: k in acc ==> k in r.value && r.value[k] == acc[k]
    ensures r.Success? ==> forall k :: k in r.value && k !in acc ==>
      exists f :: f in files && IsReferenceFile(f) && TileName(f) == Success(k)
    decreases |files|
  {
    if |files| == 0 then
      Success(acc)
    else if !IsReferenceFile(files[0]) then
      var r := IndexFrom(files[1..], acc);
      LoadableSkip(files, acc);
      if r.Failure? then r else StoredAfterSkip(files, acc, r.value); r
    else
      match TileName(files[0])
      case Failure(e) =>
        NotLoadable(files, acc);
        Failure(BadName(e))
      case Success(key) =>
        if key in acc then
          NotLoadable(files, acc);
          Failure(DuplicateKey(key))
        else
          var r := IndexFrom(files[1..], acc[key := files[0]]);
          LoadableInsert(files, acc, key);
          if r.Failure? then r else StoredAfterInsert(files, acc, key, r.value); r
  }

  /** Skipping a file that is not a reference image keeps what the rest of
      the walk stored. */
  lemma StoredAfterSkip(files: seq<string>, acc: map<string, string>, index: map<string, string>)
    requires |files| > 0 && !IsReferenceFile(files[0])
    requires forall f :: f in files[1..] && IsReferenceFile(f) ==> Indexed(index, f)
    requires forall k :: k in index && k !in acc ==>
      exists f :: f in files[1..] && IsReferenceFile(f) && TileName(f) == Success(k)
    ensures forall f :: f in files && IsReferenceFile(f) ==> Indexed(index, f)
    ensures forall k :: k in index && k !in acc ==>
      exists f :: f in files && IsReferenceFile(f) && TileName(f) == Success(k)
  {
    assert files == [files[0]] + files[1..];
  }

  /** Inserting the first file under its new key, then walking the rest,
      stores the first file too. */
  lemma StoredAfterInsert(files: seq<string>, acc: map<string, string>, key: string, index: map<string, string>)
    requires |files| > 0 && IsReferenceFile(files[0]) && TileName(files[0]) == Success(key)
    requires key !in acc
    requires forall f :: f in files[1..] && IsReferenceFile(f) ==> Indexed(index, f)
    requires forall k :: k in acc[key := files[0]] ==> k in index && index[k] == acc[key := files[0]][k]
    requires forall k :: k in index && k !in acc[key := files[0]] ==>
      exists f :: f in files[1..] && IsReferenceFile(f) && TileName(f) == Success(k)
    ensures forall f :: f in files && IsReferenceFile(f) ==> Indexed(index, f)
    ensures forall k :: k in acc ==> k in index && index[k] == acc[k]
    ensures forall k :: k in index && k !in acc ==>
      exists f :: f in files && IsReferenceFile(f) && TileName(f) == Success(k)
  {
    assert files == [files[0]] + files[1..];
    assert key in acc[key := files[0]];
    forall k | k in acc
      ensures k in index && index[k] == acc[k]
    {
      assert k != key && k in acc[key := files[0]];
    }
  }

  /** A first reference file whose name does not convert, or converts to a
      key already present, makes the files not loadable. */
  lemma NotLoadable(files: seq<string>, acc: map<string, string>)
    requires |files| > 0 && IsReferenceFile(files[0])
    requires TileName(files[0]).Failure? || TileName(files[0]).value in acc
    ensures !Loadable(files, acc)
  {
  }

  /** A file that is not a reference image does not affect loadability. */
  lemma LoadableSkip(files: seq<string>, acc: map<string, string>)
    requires |files| > 0 && !IsReferenceFile(files[0])
    ensures Loadable(files, acc) <==> Loadable(files[1..], acc)
  {
    if Loadable(files, acc) {
      LoadableTail(files, acc);
    }
    if Loadable(files[1..], acc) {
      LoadableSkipBack(files, acc);
    }
  }

  /** Dropping the first file keeps the rest loadable. */
  lemma LoadableTail(files: seq<string>, acc: map<string, string>)
    requires |files| > 0 && Loadable(files, acc)
    ensures Loadable(files[1..], acc)
  {
    var tail := files[1..];
    forall i, j | 0 <= i < j < |tail| && IsReferenceFile(tail[i]) && IsReferenceFile(tail[j])
      ensures TileName(tail[i]) != TileName(tail[j])
    {
      assert files[i + 1] == tail[i] && files[j + 1] == tail[j];
    }
    forall i | 0 <= i < |tail| && IsReferenceFile(tail[i])
      ensures TileName(tail[i]).Success? && TileName(tail[i]).value !in acc
    {
      assert files[i + 1] == tail[i];
    }
  }

  lemma LoadableSkipBack(files: seq<string>, acc: map<string, string>)
    requires |files| > 0 && !IsReferenceFile(files[0]) && Loadable(files[1..], acc)
    ensures Loadable(files, acc)
  {
    var tail := files[1..];
    forall i, j | 0 <= i < j < |files| && IsReferenceFile(files[i]) && IsReferenceFile(files[j])
      ensures TileName(files[i]) != TileName(files[j])
    {
      assert i > 0 && files[i] == tail[i - 1] && files[j] == tail[j - 1];
    }
    forall i | 0 <= i < |files| && IsReferenceFile(files[i])
      ensures TileName(files[i]).Success? && TileName(files[i]).value !in acc
    {
      assert i > 0 && files[i] == tail[i - 1];
    }
  }

  /** A reference file whose tile name is new is loadable together with the
      rest exactly when the rest is loadable once that name is taken. */
  lemma LoadableInsert(files: seq<string>, acc: map<string, string>, key: string)
    requires |files| > 0 && IsReferenceFile(files[0]) && TileName(files[0]) == Success(key)
    requires key !in acc
    ensures Loadable(files, acc) <==> Loadable(files[1..], acc[key := files[0]])
  {
    if Loadable(files, acc) {
      LoadableTakesKey(files, acc, key);
    }
    if Loadable(files[1..], acc[key := files[0]]) {
      LoadableInsertBack(files, acc, key);
    }
  }

  lemma LoadableTakesKey(files: seq<string>, acc: map<string, string>, key: string)
    requires |files| > 0 && IsReferenceFile(files[0]) && TileName(files[0]) == Success(key)
    requires Loadable(files, acc)
    ensures Loadable(files[1..], acc[key := files[0]])
  {
    var tail := files[1..];
    LoadableTail(files, acc);
    forall i | 0 <= i < |tail| && IsReferenceFile(tail[i])
      ensures TileName(tail[i]).Success? && TileName(tail[i]).value !in acc[key := files[0]]
    {
      assert files[i + 1] == tail[i];
      assert TileName(files[0]) != TileName(files[i + 1]);
    }
  }

  lemma LoadableInsertBack(files: seq<string>, acc: map<string, string>, key: string)
    requires |files| > 0 && IsReferenceFile(files[0]) && TileName(files[0]) == Success(key)
    requires key !in acc && Loadable(files[1..], acc[key := files[0]])
    ensures Loadable(files, acc)
  {
    var tail := files[1..];
    var grown := acc[key := files[0]];
    forall i | 0 <= i < |files| && IsReferenceFile(files[i])
      ensures TileName(files[i]).Success? && TileName(files[i]).value !in acc
    {
      if i > 0 {
        assert files[i] == tail[i - 1];
      }
    }
    forall i, j | 0 <= i < j < |files| && IsReferenceFile(files[i]) && IsReferenceFile(files[j])
      ensures TileName(files[i]) != TileName(files[j])
    {
      assert files[j] == tail[j - 1];
      assert TileName(files[j]).value !in grown;
      if i > 0 {
        assert files[i] == tail[i - 1];
      }
    }
  }

  /** The index built from the walked file names. */
  function ReferenceIndex(files: seq<string>): Result<map<string, string>, IndexError> {
    IndexFrom(files, map[])
  }

  /** Two different loaded files with the same tile name make `init` fail. */
  lemma DuplicateTileNamesFail(files: seq<string>, i: nat, j: nat)
    requires i < |files| && j < |files| && files[i] != files[j]
    requires IsReferenceFile(files[i]) && IsReferenceFile(files[j])
    requires TileName(files[i]).Success? && TileName(files[i]) == TileName(files[j])
    ensures ReferenceIndex(files).Failure?
  {
  }

  /** A reference directory holding both "<suit>-west.jpg" and
      "<suit>-white.jpg" cannot be loaded. */
  lemma WestAndWhiteBreakInit(files: seq<string>, suit: string)
    requires '-' !in suit && '.' !in suit && !Contains(suit, "resized")
    requires PlainName(suit, "west") in files && PlainName(suit, "white") in files
    ensures ReferenceIndex(files).Failure?
  {
    WestAndWhiteCollide(suit);
    PlainFileIsReference(suit, "west");
    PlainFileIsReference(suit, "white");
    WestTileName(suit);
    var i :| 0 <= i < |files| && files[i] == PlainName(suit, "west");
    var j :| 0 <= j < |files| && files[j] == PlainName(suit, "white");
    DuplicateTileNamesFail(files, i, j);
  }

  /** In particular the honor tiles "honor-west.jpg" and "honor-white.jpg"
      (both "w", since the suit "honor" rewrites to nothing) cannot be loaded
      together. */
  lemma HonorWestAndWhite(files: seq<string>)
    requires PlainName("honor", "west") in files && PlainName("honor", "white") in files
    ensures ReferenceIndex(files).Failure?
  {
    MissingChar("honor", "resized", 'e');
    WestAndWhiteBreakInit(files, "honor");
  }

  // ---------------------------------------------------------------------
  // Best-match selection in `identify`
  // ---------------------------------------------------------------------

  /** What one matching task reports: the reference compared against and the
      number of inliers found. */
  datatype InlierResult = InlierResult(referenceName: string, inlierCount: nat)

  /** Entry `k` is the answer of the selection loop: it has inliers, no
      entry has more, and every earlier entry has strictly fewer. Absent
      entries (a task whose future threw) do not compete. */
  predicate IsFirstBest(results: seq<Option<InlierResult>>, k: int) {
    && 0 <= k < |results| && results[k].Some? && results[k].value.inlierCount > 0
    && (forall j :: 0 <= j < |results| && results[j].Some? ==>
          results[j].value.inlierCount <= results[k].value.inlierCount)
    && (forall j :: 0 <= j < k && results[j].Some? ==>
          results[j].value.inlierCount < results[k].value.inlierCount)
  }

  /** No task that completed found any inlier. */
  predicate NoInliers(results: seq<Option<InlierResult>>) {
    forall j :: 0 <= j < |results| && results[j].Some? ==> results[j].value.inlierCount == 0
  }

  /** The selection loop of `identify` over the tasks' results in submission
      order (`None` for a task whose future threw, which is skipped): keep the
      first result whose count beats the running maximum, which starts at 0.
      Nothing is chosen exactly when no completed task found an inlier;
      otherwise the choice is the earliest result with the largest count. */
  method SelectBest(results: seq<Option<InlierResult>>) returns (best: Option<InlierResult>)
    ensures best.None? <==> NoInliers(results)
    ensures best.Some? ==> exists k :: IsFirstBest(results, k) && results[k] == best
  {
    var max: nat := 0;
    best := None;
    var i := 0;
    while i < |results|
      invariant 0 <= i <= |results|
      invariant best.None? ==> max == 0 && NoInliers(results[..i])
      invariant best.Some? ==> max == best.value.inlierCount
      invariant best.Some? ==> exists k :: IsFirstBest(results[..i], k) && results[k] == best
    {
      var prefix := results[..i + 1];
      assert prefix[..i] == results[..i];
      match results[i] {
        case None =>
          if best.Some? {
            var k :| IsFirstBest(results[..i], k) && results[k] == best;
            assert IsFirstBest(prefix, k);
          }
        case Some(inliers) =>
          if inliers.inlierCount > max {
            best := Some(inliers);
            max := inliers.inlierCount;
            assert IsFirstBest(prefix, i);
          } else if best.Some? {
            var k :| IsFirstBest(results[..i], k) && results[k] == best;
            assert IsFirstBest(prefix, k);
          }
      }
      i := i + 1;
    }
    assert results[..i] == results;
  }

  /** The first best entry is unique, and it exists exactly when some
      completed task found an inlier. */
  lemma FirstBestUnique(results: seq<Option<InlierResult>>, k: int, l: int)
    requires IsFirstBest(results, k) && IsFirstBest(results, l)
    ensures k == l && !NoInliers(results)
  {
  }

  /** `identify` with every meld's task results given: meld `m` is labelled
      with the name of its best reference, and a meld with no inliers
      anywhere gets no label. */
  method Identify(perMeld: seq<seq<Option<InlierResult>>>) returns (labels: map<nat, string>)
    ensures forall m: nat :: m in labels <==> m < |perMeld| && !NoInliers(perMeld[m])
    ensures forall m :: m in labels ==>
      exists k :: IsFirstBest(perMeld[m], k) && labels[m] == perMeld[m][k].value.referenceName
  {
    labels := map[];
    var m := 0;
    while m < |perMeld|
      invariant 0 <= m <= |perMeld|
      invariant forall n: nat :: n in labels <==> n < m && !NoInliers(perMeld[n])
      invariant forall n :: n in labels ==>
        exists k :: IsFirstBest(perMeld[n], k) && labels[n] == perMeld[n][k].value.referenceName
    {
      var best := SelectBest(perMeld[m]);
      if best.Some? {
        labels := labels[m := best.value.referenceName];
      }
      m := m + 1;
    }
  }
}
