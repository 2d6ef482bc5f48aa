/** String utilities: HTML tag removal and n-gram similarity. */
module YeeString {

  // ---------- searching ----------

  /** string::find of a character from a position; the length stands for npos. */
  function IndexFrom(s: string, c: char, pos: nat): (i: nat)
    requires pos <= |s|
    ensures pos <= i <= |s|
    ensures i < |s| ==> s[i] == c
    ensures forall k :: pos <= k < i ==> s[k] != c
    decreases |s| - pos
  {
    if pos == |s| || s[pos] == c then pos else IndexFrom(s, c, pos + 1)
  }

  lemma IndexIs(s: string, c: char, pos: nat, i: nat)
    requires pos <= i <= |s| && (i < |s| ==> s[i] == c) && forall k :: pos <= k < i ==> s[k] != c
    ensures IndexFrom(s, c, pos) == i
  {
  }

  // ---------- HTML tags ----------

  const TAG_LIMIT: nat := 1024

  function Open(s: string): nat {
    IndexFrom(s, '<', 0)
  }

  /** The first '>' behind the first '<'. */
  function Close(s: string): (j: nat)
    ensures j <= |s| && (j < |s| ==> Open(s) < j && s[j] == '>')
  {
    IndexFrom(s, '>', Open(s))
  }

  predicate HasTag(s: string) {
    Close(s) < |s|
  }

  /** What the scan keeps of the text up to its first '>': a tag under the limit is cut off. */
  function Kept(s: string): string
    requires HasTag(s)
  {
    if Close(s) - Open(s) + 1 < TAG_LIMIT then s[..Open(s)] else s[..Close(s) + 1]
  }

  /** The text behind its first tag. */
  function Behind(s: string): (r: string)
    requires HasTag(s)
    ensures |r| < |s|
  {
    s[Close(s) + 1..]
  }

  /** The text with every tag cut out that is shorter than the limit, read from the left. */
  function Stripped(s: string): string
    decreases |s|
  {
    if HasTag(s) then Kept(s) + Stripped(Behind(s)) else s
  }

  /** Some '<' that the scan meets has its next '>' 1023 or more positions later. */
  predicate MeetsLongTag(s: string)
    decreases |s|
  {
    HasTag(s) && (Close(s) - Open(s) + 1 >= TAG_LIMIT || MeetsLongTag(Behind(s)))
  }

  /** Some '<' that the scan meets has its next '>' closer. */
  predicate MeetsShortTag(s: string)
    decreases |s|
  {
    HasTag(s) && (Close(s) - Open(s) + 1 < TAG_LIMIT || MeetsShortTag(Behind(s)))
  }

  lemma HasTagMeans(s: string)
    ensures HasTag(s) <==> exists i, j :: 0 <= i < j < |s| && s[i] == '<' && s[j] == '>'
  {
    hide IndexFrom;
    if exists i, j :: 0 <= i < j < |s| && s[i] == '<' && s[j] == '>' {
      var i, j :| 0 <= i < j < |s| && s[i] == '<' && s[j] == '>';
      assert Open(s) <= i;
    }
    if HasTag(s) {
      assert s[Open(s)] == '<' && s[Close(s)] == '>';
    }
  }

  /** Text without '<' in front does not matter to the scan. */
  lemma PlainPositions(a: string, t: string)
    requires forall k :: 0 <= k < |a| ==> a[k] != '<'
    ensures Open(a + t) == |a| + Open(t) && Close(a + t) == |a| + Close(t)
  {
    hide IndexFrom;
    var s := a + t;
    IndexIs(s, '<', 0, |a| + Open(t));
    IndexIs(s, '>', Open(s), |a| + Close(t));
  }

  lemma PlainTag(a: string, t: string)
    requires forall k :: 0 <= k < |a| ==> a[k] != '<'
    ensures HasTag(a + t) == HasTag(t)
    ensures HasTag(t) ==> Kept(a + t) == a + Kept(t) && Behind(a + t) == Behind(t)
  {
    hide Open;
    hide Close;
    PlainPositions(a, t);
    if HasTag(t) {
      assert (a + t)[|a| + Open(t)] == t[Open(t)];
    }
  }

  lemma PlainPrefix(a: string, t: string)
    requires forall k :: 0 <= k < |a| ==> a[k] != '<'
    ensures HasTag(a + t) == HasTag(t)
    ensures Stripped(a + t) == a + Stripped(t)
  {
    hide HasTag;
    hide Kept;
    hide Behind;
    PlainTag(a, t);
    if HasTag(t) {
      var rest := Stripped(Behind(t));
      assert a + (Kept(t) + rest) == a + Kept(t) + rest;
    }
  }

  /** A kept long tag is scanned on its own. */
  lemma LongPrefix(s: string, t: string)
    requires HasTag(s) && Close(s) - Open(s) + 1 >= TAG_LIMIT
    ensures HasTag(Kept(s) + t) && Stripped(Kept(s) + t) == Kept(s) + Stripped(t)
  {
    hide IndexFrom;
    var u := Kept(s) + t;
    IndexIs(u, '<', 0, Open(s));
    IndexIs(u, '>', Open(s), Close(s));
    assert Behind(u) == t && Kept(u) == Kept(s);
  }

  lemma NoOpenInKept(s: string)
    requires HasTag(s) && Close(s) - Open(s) + 1 < TAG_LIMIT
    ensures forall k :: 0 <= k < |Kept(s)| ==> Kept(s)[k] != '<'
  {
  }

  /** Stripping twice is stripping once. */
  lemma {:induction false} StripIdempotent(s: string)
    ensures Stripped(Stripped(s)) == Stripped(s)
    decreases |s|
  {
    hide Kept;
    hide Behind;
    if HasTag(s) {
      StripIdempotent(Behind(s));
      if Close(s) - Open(s) + 1 < TAG_LIMIT {
        NoOpenInKept(s);
        PlainPrefix(Kept(s), Stripped(Behind(s)));
      } else {
        LongPrefix(s, Stripped(Behind(s)));
      }
    }
  }

  /** No tag is left iff the scan meets no tag at or over the limit. */
  lemma {:induction false} TagFreeIff(s: string)
    ensures !HasTag(Stripped(s)) <==> !MeetsLongTag(s)
    decreases |s|
  {
    hide Kept;
    hide Behind;
    if HasTag(s) {
      TagFreeIff(Behind(s));
      if Close(s) - Open(s) + 1 < TAG_LIMIT {
        NoOpenInKept(s);
        PlainPrefix(Kept(s), Stripped(Behind(s)));
      } else {
        LongPrefix(s, Stripped(Behind(s)));
      }
    }
  }

  /** In particular a text of fewer than 1024 characters is left without tags. */
  lemma {:induction false} ShortTextsMeetNoLongTag(s: string)
    requires |s| < TAG_LIMIT
    ensures !MeetsLongTag(s)
    decreases |s|
  {
    if HasTag(s) {
      ShortTextsMeetNoLongTag(Behind(s));
    }
  }

  lemma Regroup(a: string, b: string, c: string)
    ensures a + (b + c) == (a + b) + c
  {
  }

  /** The first tag of a text: it is cut out if it is under the limit, and nothing else is. Together with the case of no
      tag this determines the result of stripping every text. */
  lemma TagIsCut(a: string, inner: string, b: string)
    requires (forall k :: 0 <= k < |a| ==> a[k] != '<') && (forall k :: 0 <= k < |inner| ==> inner[k] != '>')
    ensures var tag := "<" + inner + ">";
            Stripped(a + (tag + b)) == (if |tag| < TAG_LIMIT then a else a + tag) + Stripped(b)
  {
    var tag := "<" + inner + ">";
    var t := tag + b;
    FirstTag(inner, b);
    PlainPrefix(a, t);
    hide *;
    if |tag| < TAG_LIMIT {
      assert [] + Stripped(b) == Stripped(b);
    } else {
      Regroup(a, tag, Stripped(b));
    }
  }

  lemma FirstTag(inner: string, b: string)
    requires forall k :: 0 <= k < |inner| ==> inner[k] != '>'
    ensures var tag := "<" + inner + ">";
            Stripped(tag + b) == (if |tag| < TAG_LIMIT then [] else tag) + Stripped(b)
  {
    hide IndexFrom;
    var tag := "<" + inner + ">";
    var t := tag + b;
    assert t[0] == '<' && t[|inner| + 1] == '>';
    assert forall k :: 0 < k <= |inner| ==> t[k] == inner[k - 1];
    IndexIs(t, '<', 0, 0);
    IndexIs(t, '>', 0, |inner| + 1);
    assert t[..0] == [] && t[..|tag|] == tag && t[|tag|..] == b;
    assert Behind(t) == b && Kept(t) == if |tag| < TAG_LIMIT then [] else tag;
    hide Kept;
    hide Behind;
  }

  /** A tag of exactly 1024 characters is met and stays. */
  lemma LongTagStays()
    ensures var tag := "<" + seq(1022, _ => 'x') + ">";
            MeetsLongTag(tag) && HasTag(tag) && Stripped(tag) == tag
  {
    hide IndexFrom;
    var tag := "<" + seq(1022, _ => 'x') + ">";
    IndexIs(tag, '<', 0, 0);
    IndexIs(tag, '>', 0, 1023);
    assert Open(tag) == 0 && Close(tag) == 1023;
    assert Behind(tag) == "" && Kept(tag) == tag && !HasTag("");
  }

  /** A tag of 1023 characters does not. */
  lemma ShortTagGoes()
    ensures Stripped("<" + seq(1021, _ => 'x') + ">") == ""
  {
    var inner := seq(1021, _ => 'x');
    var tag := "<" + inner + ">";
    FirstTag(inner, "");
    assert tag + "" == tag && |tag| == 1023;
    assert Stripped("") == "";
    hide Stripped;
  }

  lemma KeptAndBehind(s: string)
    requires HasTag(s)
    ensures |Kept(s)| + |Behind(s)| <= |s|
    ensures Close(s) - Open(s) + 1 < TAG_LIMIT ==> |Kept(s)| + |Behind(s)| < |s|
    ensures Close(s) - Open(s) + 1 >= TAG_LIMIT ==> s == Kept(s) + Behind(s)
  {
    hide IndexFrom;
  }

  /** Stripping changes nothing iff the scan meets no tag under the limit. */
  lemma {:induction false} UnchangedIff(s: string)
    ensures |Stripped(s)| <= |s|
    ensures Stripped(s) == s <==> !MeetsShortTag(s)
    decreases |s|
  {
    hide Kept;
    hide Behind;
    if HasTag(s) {
      UnchangedIff(Behind(s));
      KeptAndBehind(s);
      if Close(s) - Open(s) + 1 >= TAG_LIMIT {
        assert Stripped(s)[|Kept(s)|..] == Stripped(Behind(s)) && s[|Kept(s)|..] == Behind(s);
      }
    }
  }

  /** Searching behind a finished part is searching the rest. */
  lemma ShiftSearch(done: string, rest: string)
    ensures IndexFrom(done + rest, '<', |done|) == |done| + Open(rest)
    ensures IndexFrom(done + rest, '>', |done| + Open(rest)) == |done| + Close(rest)
  {
    hide IndexFrom;
    IndexIs(done + rest, '<', |done|, |done| + Open(rest));
    IndexIs(done + rest, '>', |done| + Open(rest), |done| + Close(rest));
  }

  /** The loop has finished `done`, and goes on from the next '<' of `rest`. */
  ghost predicate Scanning(text: string, r: string, pos: nat, done: string, rest: string) {
    && r == done + rest && pos == |done| + Open(rest)
    && done + Stripped(rest) == Stripped(text)
  }

  lemma Resume(text: string, r: string, done: string, rest: string)
    requires r == done + rest && done + Stripped(rest) == Stripped(text)
    ensures |done| <= |r| && Scanning(text, r, IndexFrom(r, '<', |done|), done, rest)
  {
    hide IndexFrom;
    hide Open;
    hide Stripped;
    ShiftSearch(done, rest);
  }

  lemma CutOut(done: string, rest: string, o: nat, c: nat)
    requires o <= c < |rest|
    ensures (done + rest)[..|done| + o] == done + rest[..o]
    ensures (done + rest)[|done| + c + 1..] == rest[c + 1..]
  {
  }

  lemma KeepGoing(done: string, rest: string)
    requires HasTag(rest)
    ensures (done + Kept(rest)) + Stripped(Behind(rest)) == done + Stripped(rest)
  {
    hide Kept;
    hide Behind;
    hide Close;
    Regroup(done, Kept(rest), Stripped(Behind(rest)));
  }

  /** The kept part is finished, and the text behind the tag is the new rest. */
  lemma TurnText(done: string, rest: string) returns (done': string, rest': string)
    requires HasTag(rest)
    ensures |rest'| < |rest| && done' + Stripped(rest') == done + Stripped(rest)
    ensures var r, pos, end := done + rest, |done| + Open(rest), |done| + Close(rest);
            pos <= end < |r| &&
            if end - pos + 1 < TAG_LIMIT
            then |done'| == pos && r[..pos] + r[end + 1..] == done' + rest'
            else |done'| == end + 1 && r == done' + rest'
  {
    hide Open;
    hide Close;
    hide Stripped;
    var o, c := Open(rest), Close(rest);
    done', rest' := done + Kept(rest), Behind(rest);
    KeepGoing(done, rest);
    if c - o + 1 < TAG_LIMIT {
      CutOut(done, rest, o, c);
    } else {
      Regroup(done, Kept(rest), rest');
      assert rest == Kept(rest) + rest';
    }
  }

  lemma WhereItStands(text: string, r: string, pos: nat, done: string, rest: string)
    requires Scanning(text, r, pos, done, rest) && pos <= |r|
    ensures r == done + rest && done + Stripped(rest) == Stripped(text)
    ensures pos == |done| + Open(rest) && IndexFrom(r, '>', pos) == |done| + Close(rest)
    ensures HasTag(rest) <==> pos < |r| && IndexFrom(r, '>', pos) < |r|
  {
    hide IndexFrom;
    hide Stripped;
    ShiftSearch(done, rest);
  }

  /** One turn of the loop, or its end. */
  lemma ScanTurn(text: string, r: string, pos: nat, done: string, rest: string) returns (done': string, rest': string)
    requires Scanning(text, r, pos, done, rest) && pos <= |r|
    ensures var end := IndexFrom(r, '>', pos);
            if pos == |r| || end == |r| then r == Stripped(text)
            else
              && |rest'| < |rest|
              && if end - pos + 1 < TAG_LIMIT
                 then var r' := r[..pos] + r[end + 1..]; Scanning(text, r', IndexFrom(r', '<', pos), done', rest')
                 else Scanning(text, r, IndexFrom(r, '<', end + 1), done', rest')
  {
    hide *;
    done', rest' := done, rest;
    WhereItStands(text, r, pos, done, rest);
    if HasTag(rest) {
      var end := IndexFrom(r, '>', pos);
      done', rest' := TurnText(done, rest);
      if end - pos + 1 < TAG_LIMIT {
        Resume(text, r[..pos] + r[end + 1..], done', rest');
      } else {
        Resume(text, r, done', rest');
      }
    } else {
      NothingToStrip(rest);
    }
  }

  lemma NothingToStrip(rest: string)
    ensures !HasTag(rest) ==> Stripped(rest) == rest
  {
    hide HasTag;
  }

  /** The loop edits the string in place. */
  method RemoveHtmlTags(text: string) returns (r: string)
    ensures r == Stripped(text)
  {
    hide *;
    r := text;
    ghost var done, rest := "", text;
    assert text == done + rest && Stripped(text) == done + Stripped(rest);
    Resume(text, r, done, rest);
    var pos: nat := IndexFrom(r, '<', 0);
    while pos < |r|
      invariant pos <= |r| && Scanning(text, r, pos, done, rest)
      decreases |rest|
    {
      ghost var done', rest' := ScanTurn(text, r, pos, done, rest);
      var end := IndexFrom(r, '>', pos);
      if end == |r| {
        break;
      }
      if end - pos + 1 < TAG_LIMIT {
        r := r[..pos] + r[end + 1..];
        pos := IndexFrom(r, '<', pos);
      } else {
        pos := IndexFrom(r, '<', end + 1);
      }
      done, rest := done', rest';
    }
    var _, _ := ScanTurn(text, r, pos, done, rest);
  }
}
