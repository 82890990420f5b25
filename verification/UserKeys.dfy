/** The users.dat store of content.c: a file of length-prefixed records, walked from the front. */
module UserKeys {
  import opened Wrappers

  const KEY_LENGTH: nat := 20
  const NUL: char := '\0'

  datatype Record = Record(name: string, key: string)

  /** Names are C strings, keys are twenty bytes. */
  ghost predicate Proper(name: string, key: string) { NUL !in name && |key| == KEY_LENGTH }

  /** A length byte as the program reads it back: its char is signed. */
  function Signed(b: char): int { if b as int % 256 < 128 then b as int % 256 else b as int % 256 - 256 }

  function LengthByte(n: nat): char { (n % 256) as char }

  /** The name and its terminator are stepped over only if their length fits a signed char; a length
      that is 235 modulo 256 reads as 21 short of zero, which cancels the rest of the step. */
  lemma LengthSurvivesIff(n: nat)
    ensures Signed(LengthByte(n)) == n <==> n < 128
    ensures Signed(LengthByte(n)) == -21 <==> n % 256 == 235
  {
  }

  /** A name of 127 characters, 128 with its terminator, is stepped over the wrong way. */
  lemma LongNameTurnsBack()
    ensures Signed(LengthByte(127 + 1)) == -128
  {
  }

  predicate Fits(r: Record) { |r.name| + 1 < 128 }

  function Encoded(r: Record): string { [LengthByte(|r.name| + 1)] + r.name + [NUL] + r.key }

  function Stored(rs: seq<Record>): string {
    if rs == [] then "" else Encoded(rs[0]) + Stored(rs[1..])
  }

  ghost predicate Store(rs: seq<Record>) {
    forall k :: 0 <= k < |rs| ==> Proper(rs[k].name, rs[k].key) && Fits(rs[k])
  }

  /** The key of the first record with a name: the meaning of the file. */
  function Find(rs: seq<Record>, name: string): Option<string> {
    if rs == [] then None else if rs[0].name == name then Some(rs[0].key) else Find(rs[1..], name)
  }

  // ----- the laws of the store

  lemma {:induction false} FindAppend(rs: seq<Record>, r: Record, name: string)
    ensures Find(rs + [r], name) ==
      if Find(rs, name).Some? then Find(rs, name) else if r.name == name then Some(r.key) else None
  {
    if rs == [] {
      assert rs + [r] == [r];
    } else {
      assert (rs + [r])[0] == rs[0] && (rs + [r])[1..] == rs[1..] + [r];
      FindAppend(rs[1..], r, name);
    }
  }

  lemma {:induction false} StoredAppend(rs: seq<Record>, ss: seq<Record>)
    ensures Stored(rs + ss) == Stored(rs) + Stored(ss)
  {
    if rs == [] {
      assert rs + ss == ss;
    } else {
      assert (rs + ss)[0] == rs[0] && (rs + ss)[1..] == rs[1..] + ss;
      StoredAppend(rs[1..], ss);
    }
  }

  /** Saving a key. */
  function Saved(rs: seq<Record>, r: Record): seq<Record> {
    if Find(rs, r.name).Some? then rs else rs + [r]
  }

  function SavedAll(rs: seq<Record>): seq<Record> {
    if rs == [] then [] else Saved(SavedAll(rs[..|rs| - 1]), rs[|rs| - 1])
  }

  /** First write wins: after any saves each name has the key it was first saved with, and the other
      names have none. */
  lemma {:induction false} FirstWriteWins(rs: seq<Record>, name: string)
    ensures Find(SavedAll(rs), name) == Find(rs, name)
    decreases |rs|
  {
    if rs != [] {
      var front, r := rs[..|rs| - 1], rs[|rs| - 1];
      FirstWriteWins(front, name);
      FirstWriteWins(front, r.name);
      FindAppend(SavedAll(front), r, name);
      FindAppend(front, r, name);
      assert rs == front + [r];
    }
  }

  // ----- the file

  /** strcmp of a name with the string that begins at a place of the file. */
  predicate SameString(name: string, file: string, at: nat) {
    at + |name| < |file| && file[at..at + |name|] == name && file[at + |name|] == NUL
  }

  lemma RecordShape(r: Record, rest: string)
    requires Proper(r.name, r.key) && Fits(r)
    ensures var file, n := Encoded(r) + rest, |r.name|;
            && |Encoded(r)| == 21 + Signed(file[0]) && Signed(file[0]) == n + 1
            && file[|Encoded(r)|..] == rest && file[n + 2..n + 22] == r.key
            && (forall k :: 0 <= k < n ==> file[k + 1] == r.name[k]) && file[n + 1] == NUL
  {
    LengthSurvivesIff(|r.name| + 1);
  }

  /** A name matches a record exactly if it is the record's name. */
  lemma MatchIsName(name: string, r: Record, rest: string)
    requires Proper(r.name, r.key) && Fits(r) && NUL !in name
    ensures SameString(name, Encoded(r) + rest, 1) <==> name == r.name
  {
    hide Encoded;
    var file, n := Encoded(r) + rest, |r.name|;
    RecordShape(r, rest);
    assert file[1..n + 1] == r.name;
    if SameString(name, file, 1) {
      var text := file[1..];
      assert text[..|name|] == name && text[..n] == r.name;
      OneTerminator(text, |name|, n);
    }
  }

  lemma OneTerminator(s: string, a: nat, b: nat)
    requires a < |s| && s[a] == NUL && NUL !in s[..a]
    requires b < |s| && s[b] == NUL && NUL !in s[..b]
    ensures a == b
  {
    InFront(s, b, a);
    InFront(s, a, b);
  }

  lemma InFront(s: string, n: nat, k: nat)
    requires n <= |s| && k < |s|
    ensures k < n ==> s[k] in s[..n]
  {
    if k < n {
      assert s[..n][k] == s[k];
    }
  }

  /** What a record at a place of the file says, in terms of the file. */
  lemma RecordAt(file: string, i: nat, rs: seq<Record>, name: string)
    requires i <= |file| && file[i..] == Stored(rs) && Store(rs) && rs != [] && NUL !in name
    ensures i < |file| && (SameString(name, file, i + 1) <==> name == rs[0].name)
    ensures var n := Signed(file[i]);
            && 1 <= n && i + 21 + n <= |file| && file[i + 21 + n..] == Stored(rs[1..])
            && file[i + 1 + n..i + 21 + n] == rs[0].key
  {
    hide Encoded, SameString;
    var tail := file[i..];
    RecordShape(rs[0], Stored(rs[1..]));
    MatchIsName(name, rs[0], Stored(rs[1..]));
    SameStringShift(name, file, i);
    var m := |Encoded(rs[0])|;
    assert tail[m..] == file[i + m..];
    assert tail[m - 20..m] == file[i + m - 20..i + m];
  }

  lemma SameStringShift(name: string, file: string, i: nat)
    requires i <= |file|
    ensures SameString(name, file, i + 1) <==> SameString(name, file[i..], 1)
  {
    assert i + 1 + |name| <= |file| ==> file[i + 1..i + 1 + |name|] == file[i..][1..1 + |name|];
  }

  /** _load_user_key on the contents of the file. */
  method LoadUserKey(file: string, name: string, ghost rs: seq<Record>) returns (key: Option<string>)
    requires file == Stored(rs) && Store(rs) && NUL !in name
    ensures key == Find(rs, name)
  {
    hide Signed, SameString, Encoded;
    var i := 0;
    ghost var k := 0;
    assert rs[0..] == rs && file[0..] == file;
    while i < |file|
      invariant i <= |file| && k <= |rs| && file[i..] == Stored(rs[k..])
      invariant Find(rs[k..], name) == Find(rs, name)
    {
      assert rs[k..] != [];
      RecordAt(file, i, rs[k..], name);
      if SameString(name, file, i + 1) {
        var at := i + 1 + Signed(file[i]);
        return Some(file[at..at + KEY_LENGTH]);
      }
      assert rs[k..][1..] == rs[k + 1..];
      i := i + 21 + Signed(file[i]);
      k := k + 1;
    }
    SomethingStored(rs[k..]);
    key := None;
  }

  lemma SomethingStored(rs: seq<Record>)
    ensures rs == [] || |Stored(rs)| > 0
  {
  }

  // ----- where the walk goes

  /** Where the walk stands after so many steps; it moves no more once it has left the file. */
  function WalkAt(file: string, steps: nat): int {
    if steps == 0 then 0
    else
      var i := WalkAt(file, steps - 1);
      if 0 <= i < |file| then i + 21 + Signed(file[i]) else i
  }

  /** Records as the program writes them, with names of any length. */
  ghost predicate AllProper(rs: seq<Record>) {
    forall k :: 0 <= k < |rs| ==> Proper(rs[k].name, rs[k].key)
  }

  /** The walk comes to every record in turn, and to the end of the file behind the last. */
  ghost predicate Walkable(rs: seq<Record>) {
    forall k :: 0 <= k <= |rs| ==> WalkAt(Stored(rs), k) == |Stored(rs[..k])|
  }

  /** What stands where a record begins. */
  lemma RecordBegins(rs: seq<Record>, k: nat)
    requires k < |rs| && AllProper(rs)
    ensures var i := |Stored(rs[..k])|;
            && i < |Stored(rs)| && Stored(rs)[i] == LengthByte(|rs[k].name| + 1)
            && |Stored(rs[..k + 1])| == i + 22 + |rs[k].name|
  {
    hide LengthByte;
    var r := rs[k];
    assert rs[..k + 1] == rs[..k] + [r] && rs == rs[..k] + rs[k..];
    StoredAppend(rs[..k], [r]);
    StoredAppend(rs[..k], rs[k..]);
    assert [r][1..] == [];
    assert |Encoded(r)| == 22 + |r.name| && Encoded(r)[0] == LengthByte(|r.name| + 1);
  }

  /** From a record with a name of any length, the walk goes to the next one exactly if the name has
      fewer than 127 characters. */
  lemma StepsOverIff(rs: seq<Record>, k: nat)
    requires k < |rs| && AllProper(rs)
    ensures var i := |Stored(rs[..k])|;
            i < |Stored(rs)| && (i + 21 + Signed(Stored(rs)[i]) == |Stored(rs[..k + 1])| <==> |rs[k].name| < 127)
  {
    RecordBegins(rs, k);
    LengthSurvivesIff(|rs[k].name| + 1);
  }

  lemma {:induction false} WalksTo(rs: seq<Record>, k: nat)
    requires k <= |rs| && AllProper(rs) && forall j :: 0 <= j < k ==> |rs[j].name| < 127
    ensures WalkAt(Stored(rs), k) == |Stored(rs[..k])|
  {
    if k > 0 {
      WalksTo(rs, k - 1);
      StepsOverIff(rs, k - 1);
    }
  }

  /** The walk comes to every record exactly if all names have fewer than 127 characters. */
  lemma WalkableIff(rs: seq<Record>)
    requires AllProper(rs)
    ensures Walkable(rs) <==> forall k :: 0 <= k < |rs| ==> |rs[k].name| < 127
  {
    if forall k :: 0 <= k < |rs| ==> |rs[k].name| < 127 {
      forall k | 0 <= k <= |rs| ensures WalkAt(Stored(rs), k) == |Stored(rs[..k])| {
        WalksTo(rs, k);
      }
    }
    if Walkable(rs) {
      forall k | 0 <= k < |rs| ensures |rs[k].name| < 127 {
        StepsOverIff(rs, k);
        assert WalkAt(Stored(rs), k) == |Stored(rs[..k])| && WalkAt(Stored(rs), k + 1) == |Stored(rs[..k + 1])|;
      }
    }
  }

  lemma {:induction false} WalkStays(file: string, k: nat, m: nat)
    requires k <= m && 0 <= WalkAt(file, k) < |file| && Signed(file[WalkAt(file, k)]) == -21
    ensures WalkAt(file, m) == WalkAt(file, k)
    decreases m
  {
    if m > k {
      WalkStays(file, k, m - 1);
    }
  }

  /** A walk that comes to a record stays there for good exactly if the length of its name is 234
      modulo 256. */
  lemma WalkSticksIff(rs: seq<Record>, k: nat)
    requires k < |rs| && AllProper(rs) && WalkAt(Stored(rs), k) == |Stored(rs[..k])|
    ensures (forall m :: m >= k ==> WalkAt(Stored(rs), m) == WalkAt(Stored(rs), k)) <==> |rs[k].name| % 256 == 234
  {
    hide WalkAt, Stored, Signed, LengthByte, AllProper;
    var file, i := Stored(rs), WalkAt(Stored(rs), k);
    RecordBegins(rs, k);
    NameSticks(|rs[k].name|);
    WalkStep(file, k);
    assert Signed(file[i]) == -21 <==> |rs[k].name| % 256 == 234;
    if Signed(file[i]) == -21 {
      forall m | m >= k ensures WalkAt(file, m) == WalkAt(file, k) {
        WalkStays(file, k, m);
      }
    } else {
      assert WalkAt(file, k + 1) != WalkAt(file, k);
    }
  }

  lemma NameSticks(n: nat)
    ensures Signed(LengthByte(n + 1)) == -21 <==> n % 256 == 234
  {
    LengthSurvivesIff(n + 1);
  }

  lemma WalkStep(file: string, k: nat)
    ensures var i := WalkAt(file, k);
            WalkAt(file, k + 1) == if 0 <= i < |file| then i + 21 + Signed(file[i]) else i
  {
  }

  /** A name of 234 characters: looking for another name in such a file never ends. */
  lemma LongNameSticks(steps: nat)
    ensures var r := Record(seq(234, _ => 'x'), seq(20, _ => 'k'));
            AllProper([r]) && WalkAt(Stored([r]), steps) == 0 && !SameString("y", Stored([r]), 1)
  {
    var r := Record(seq(234, _ => 'x'), seq(20, _ => 'k'));
    assert [r][..0] == [] && [r][1..] == [];
    assert Stored([r])[1] == 'x';
    assert WalkAt(Stored([r]), 0) == |Stored([r][..0])|;
    WalkSticksIff([r], 0);
  }

  /** _save_user_key on the contents of the file, which is empty when there is none. A new name is
      written whatever its length, and if it is too long the file can no longer be walked. */
  method SaveUserKey(file: string, name: string, key: string, ghost rs: seq<Record>) returns (written: string)
    requires file == Stored(rs) && Store(rs) && Proper(name, key)
    ensures written == Stored(Saved(rs, Record(name, key)))
    ensures Walkable(Saved(rs, Record(name, key))) <==> Find(rs, name).Some? || |name| < 127
  {
    hide Signed, Encoded;
    var found := LoadUserKey(file, name, rs);
    ghost var r := Record(name, key);
    WalkableIff(Saved(rs, r));
    if found.Some? {
      return file;
    }
    StoredAppend(rs, [r]);
    assert Stored([r]) == Encoded(r) by {
      assert Stored([r]) == Encoded(r) + "";
    }
    written := file + Encoded(Record(name, key));
    assert (rs + [r])[|rs|] == r;
  }
}
