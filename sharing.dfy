/** Upload and access joined through the store. The store keeps the metadata
    string sent at upload and hands it back as `context.custom`; this module
    models that decoding (fields split at `|`, each field at its first `=`,
    `\|` and `\=` standing for the characters themselves, a later key
    overriding an earlier one) and proves what a file's owner and its
    visitors observe afterwards. */
module Sharing {
  import opened Seqs
  import opened Text
  import Access
  import Upload

  /** A character of a metadata string as the store reads it: a separator
      (`|` between fields, `=` between key and value) or a literal character;
      a backslash before a separator makes that separator a literal. */
  datatype Unit = Lit(c: char) | Sep(c: char)

  /** The store's reading of a metadata string, left to right. */
  function Units(s: string): (us: seq<Unit>)
    decreases |s|
  {
    if s == [] then []
    else if s[0] == '\\' && |s| >= 2 && (s[1] == '|' || s[1] == '=') then [Lit(s[1])] + Units(s[2..])
    else if s[0] == '|' || s[0] == '=' then [Sep(s[0])] + Units(s[1..])
    else [Lit(s[0])] + Units(s[1..])
  }

  /** The store's decoding of one metadata string into key/value pairs. */
  function StoreContext(ctx: string): (meta: Access.Metadata)
  {
    UnitFields(Split(Units(ctx), Sep('|')))
  }

  /** Key/value pairs of the fields, left to right; fields without a `=`
      separator are skipped. */
  function UnitFields(fields: seq<seq<Unit>>): (meta: Access.Metadata)
    decreases |fields|
  {
    if fields == [] then map[]
    else
      var n := |fields| - 1;
      var kv := SplitOnce(fields[n], Sep('='));
      if kv.2 then UnitFields(fields[..n])[Chars(kv.0) := Chars(kv.1)] else UnitFields(fields[..n])
  }

  /** The characters the units stand for. */
  function Chars(us: seq<Unit>): (s: string)
  {
    seq(|us|, k requires 0 <= k < |us| => us[k].c)
  }

  /** How a text reads when it holds no backslash: every `|` and `=` separates. */
  function Plain(s: string): (us: seq<Unit>)
  {
    seq(|s|, k requires 0 <= k < |s| => if s[k] == '|' || s[k] == '=' then Sep(s[k]) else Lit(s[k]))
  }

  function PlainAll(parts: seq<string>): (us: seq<seq<Unit>>)
  {
    seq(|parts|, k requires 0 <= k < |parts| => Plain(parts[k]))
  }

  /** The decoding of a text without backslashes, on characters: fields split
      at `|`, key/value pairs left to right, fields without `=` skipped. */
  function Fields(fields: seq<string>): (meta: Access.Metadata)
    decreases |fields|
  {
    if fields == [] then map[]
    else
      var n := |fields| - 1;
      var kv := SplitOnce(fields[n], '=');
      if kv.2 then Fields(fields[..n])[kv.0 := kv.1] else Fields(fields[..n])
  }

  /** A backslash-free prefix reads plainly, whatever follows it. */
  lemma {:induction false} UnitsAfterPlain(x: string, y: string)
    requires '\\' !in x
    ensures Units(x + y) == Plain(x) + Units(y)
    decreases |x|
  {
    var s := x + y;
    if x == [] {
      assert s == y;
    } else {
      var x' := x[1..];
      assert s[0] == x[0] && s[1..] == x' + y;
      assert '\\' !in x' by {
        forall k | 0 <= k < |x'| ensures x'[k] != '\\' {
          assert x'[k] == x[k + 1];
        }
      }
      UnitsAfterPlain(x', y);
      assert Units(s) == [Plain(x)[0]] + Units(x' + y);
      assert Plain(x) == [Plain(x)[0]] + Plain(x');
    }
  }

  /** `\|` and `\=` read as the literal character. */
  lemma UnitsEscape(c: char, y: string)
    requires c == '|' || c == '='
    ensures Units(['\\', c] + y) == [Lit(c)] + Units(y)
  {
    assert (['\\', c] + y)[2..] == y;
  }

  lemma PlainAppend(a: string, b: string)
    ensures Plain(a + b) == Plain(a) + Plain(b)
  {
  }

  lemma CharsPlain(s: string)
    ensures Chars(Plain(s)) == s
  {
  }

  lemma CharsAppend(a: seq<Unit>, b: seq<Unit>)
    ensures Chars(a + b) == Chars(a) + Chars(b)
  {
  }

  /** A separator character absent from the text is absent from its plain reading. */
  lemma PlainAvoids(s: string, d: char)
    requires d !in s
    ensures Sep(d) !in Plain(s)
  {
    forall k | 0 <= k < |s| ensures Plain(s)[k] != Sep(d) {
      assert s[k] != d;
    }
  }

  lemma FindPlain(s: string, d: char)
    requires d == '|' || d == '='
    ensures Find(Plain(s), Sep(d)) == Find(s, d)
  {
    FindSpec(s, d);
    FindUnique(Plain(s), Sep(d), Find(s, d));
  }

  /** Splitting the plain reading at a separator is splitting the text. */
  lemma {:induction false} SplitPlain(s: string, d: char)
    requires d == '|' || d == '='
    ensures Split(Plain(s), Sep(d)) == PlainAll(Split(s, d))
    decreases |s|
  {
    var i := Find(s, d);
    FindPlain(s, d);
    if i < |s| {
      var rest := s[i + 1..];
      PlainSlices(s, i);
      SplitPlain(rest, d);
      PlainAllCons(s[..i], Split(rest, d));
    } else {
      assert PlainAll([s]) == [Plain(s)];
    }
  }

  lemma PlainSlices(s: string, i: nat)
    requires i < |s|
    ensures Plain(s)[..i] == Plain(s[..i]) && Plain(s)[i + 1..] == Plain(s[i + 1..])
  {
  }

  lemma PlainAllCons(p: string, ps: seq<string>)
    ensures PlainAll([p] + ps) == [Plain(p)] + PlainAll(ps)
  {
  }

  lemma SplitOncePlain(f: string)
    ensures var u, c := SplitOnce(Plain(f), Sep('=')), SplitOnce(f, '=');
      u.2 == c.2 && Chars(u.0) == c.0 && Chars(u.1) == c.1
  {
    var i := Find(f, '=');
    FindPlain(f, '=');
    if i < |f| {
      assert Plain(f)[..i] == Plain(f[..i]);
      assert Plain(f)[i + 1..] == Plain(f[i + 1..]);
      CharsPlain(f[..i]);
      CharsPlain(f[i + 1..]);
    } else {
      CharsPlain(f);
    }
  }

  lemma {:induction false} FieldsPlain(parts: seq<string>)
    ensures UnitFields(PlainAll(parts)) == Fields(parts)
    decreases |parts|
  {
    if parts != [] {
      var n := |parts| - 1;
      assert PlainAll(parts)[..n] == PlainAll(parts[..n]);
      FieldsPlain(parts[..n]);
      SplitOncePlain(parts[n]);
    }
  }

  /** Without a backslash the store's decoding is the plain one on characters. */
  lemma StoreContextPlain(ctx: string)
    requires '\\' !in ctx
    ensures StoreContext(ctx) == Fields(Split(ctx, '|'))
  {
    UnitsAfterPlain(ctx, []);
    assert ctx + [] == ctx;
    assert Units(ctx) == Plain(ctx);
    var parts := Split(ctx, '|');
    SplitPlain(ctx, '|');
    assert Split(Units(ctx), Sep('|')) == PlainAll(parts);
    FieldsPlain(parts);
  }

  /** A key read from any field stays in the map: later fields only override it. */
  lemma {:induction false} UnitFieldsKeepsKey(fields: seq<seq<Unit>>, j: nat)
    requires j < |fields| && SplitOnce(fields[j], Sep('=')).2
    ensures Chars(SplitOnce(fields[j], Sep('=')).0) in UnitFields(fields)
    decreases |fields|
  {
    var n := |fields| - 1;
    if j < n {
      assert fields[..n][j] == fields[j];
      UnitFieldsKeepsKey(fields[..n], j);
    }
  }

  const ExpiresKey: string := "expires_at"
  const PasswordKey: string := "password"

  /** Neither key contains a delimiter or a backslash, and the keys differ. */
  lemma KeysPlain()
    ensures '=' !in PasswordKey && '|' !in PasswordKey && '\\' !in PasswordKey
    ensures '=' !in ExpiresKey && '|' !in ExpiresKey && '\\' !in ExpiresKey
    ensures PasswordKey != ExpiresKey
  {
    assert PasswordKey == ['p', 'a', 's', 's', 'w', 'o', 'r', 'd'];
    assert ExpiresKey == ['e', 'x', 'p', 'i', 'r', 'e', 's', '_', 'a', 't'];
  }

  /** For a password without a backslash, whatever `|` and `=` it holds, the
      decoded `expires_at` is the one written: its field comes last, so a
      field `expires_at=...` inside the password is overridden by it. */
  lemma ExpirySurvivesPassword(password: string, t: int)
    requires '\\' !in password
    ensures var meta := StoreContext(Upload.ContextString(password, t));
      ExpiresKey in meta && meta[ExpiresKey] == IntToDecimal(t) &&
      Access.ExpiryOf(meta) == t
  {
    ContextNoBackslash(password, t);
    StoreContextPlain(Upload.ContextString(password, t));
    ExpiryFieldLast(password, t);
    Access.ExpiryRoundTrip(t);
  }

  lemma ExpiryFieldLast(password: string, t: int)
    ensures var meta := Fields(Split(Upload.ContextString(password, t), '|'));
      ExpiresKey in meta && meta[ExpiresKey] == IntToDecimal(t)
  {
    var dec := IntToDecimal(t);
    var tail := ExpiresKey + ['='] + dec;
    ContextShape(password, t);
    DecimalHasNoPipe(t);
    SplitAppend(PasswordKey + ['='] + password, '|', tail);
    var parts := Split(Upload.ContextString(password, t), '|');
    assert parts[|parts| - 1] == tail;
    KeysPlain();
    SplitOnceAt(ExpiresKey, '=', dec);
    FieldsLast(parts, ExpiresKey, dec);
  }

  /** The metadata string is the password field, `|`, then the expiry field. */
  lemma ContextShape(password: string, t: int)
    ensures Upload.ContextString(password, t) ==
              (PasswordKey + ['='] + password) + ['|'] + (ExpiresKey + ['='] + IntToDecimal(t))
  {
    assert "|expires_at=" == ['|'] + ExpiresKey + ['='];
    assert "password=" == PasswordKey + ['='];
  }

  lemma ContextNoBackslash(password: string, t: int)
    requires '\\' !in password
    ensures '\\' !in Upload.ContextString(password, t)
  {
    ContextShape(password, t);
    KeysPlain();
    DecimalHasNoPipe(t);
  }

  /** The last field with an `=` decides its key. */
  lemma FieldsLast(fields: seq<string>, k: string, v: string)
    requires fields != [] && SplitOnce(fields[|fields| - 1], '=') == (k, v, true)
    ensures k in Fields(fields) && Fields(fields)[k] == v
  {
  }

  lemma DecimalHasNoPipe(t: int)
    ensures '|' !in IntToDecimal(t) && '=' !in IntToDecimal(t) && '\\' !in IntToDecimal(t)
  {
    var s := IntToDecimal(t);
    if t < 0 {
      assert forall k :: 1 <= k < |s| ==> IsDigit(s[k]) by {
        forall k | 1 <= k < |s| ensures IsDigit(s[k]) {
          assert s[k] == NatToDecimal(-t)[k - 1];
        }
      }
    }
  }

  /** For a password without `|` or a backslash, the store hands back exactly
      the password typed at upload and the expiry time written. */
  lemma ContextRoundTrip(password: string, t: int)
    requires '|' !in password && '\\' !in password
    ensures StoreContext(Upload.ContextString(password, t)) ==
              map[PasswordKey := password, ExpiresKey := IntToDecimal(t)]
  {
    ContextNoBackslash(password, t);
    StoreContextPlain(Upload.ContextString(password, t));
    var dec := IntToDecimal(t);
    var head := PasswordKey + ['='] + password;
    var tail := ExpiresKey + ['='] + dec;
    ContextShape(password, t);
    KeysPlain();
    assert '|' !in head;
    DecimalHasNoPipe(t);
    assert '|' !in tail;
    SplitCons(head, '|', tail);
    SplitNoDelimiter(tail, '|');
    assert Split(Upload.ContextString(password, t), '|') == [head, tail];
    SplitOnceAt(PasswordKey, '=', password);
    SplitOnceAt(ExpiresKey, '=', dec);
    FieldsPair(head, tail);
  }

  lemma FieldsPair(h: string, t: string)
    requires SplitOnce(h, '=').2 && SplitOnce(t, '=').2
    ensures Fields([h, t]) == map[SplitOnce(h, '=').0 := SplitOnce(h, '=').1,
                                  SplitOnce(t, '=').0 := SplitOnce(t, '=').1]
  {
    var p, q := SplitOnce(h, '='), SplitOnce(t, '=');
    assert [h, t][..1] == [h];
    assert [h][..0] == [];
    assert Fields([h]) == map[][p.0 := p.1];
    assert Fields([h, t]) == map[][p.0 := p.1][q.0 := q.1];
  }

  /** Fields without `=` add nothing to the decoded map. */
  lemma {:induction false} FieldsSkip(xs: seq<string>, ys: seq<string>)
    requires forall j :: 0 <= j < |ys| ==> '=' !in ys[j]
    ensures Fields(xs + ys) == Fields(xs)
    decreases |ys|
  {
    if ys == [] {
      assert xs + ys == xs;
    } else {
      var n := |ys| - 1;
      var zs := xs + ys;
      assert zs[..|zs| - 1] == xs + ys[..n];
      assert zs[|zs| - 1] == ys[n];
      assert !SplitOnce(ys[n], '=').2;
      FieldsSkip(xs, ys[..n]);
    }
  }

  /** The password is written unescaped, so a `|` in it ends the password field:
      the store hands back only the part before the first `|`. When the rest has
      no `=`, its pieces are dropped and nothing else is added. */
  lemma PipeTruncatesPassword(a: string, rest: string, t: int)
    requires '|' !in a && '=' !in rest && '\\' !in a && '\\' !in rest
    ensures StoreContext(Upload.ContextString(a + ['|'] + rest, t)) ==
              map[PasswordKey := a, ExpiresKey := IntToDecimal(t)]
  {
    ContextNoBackslash(a + ['|'] + rest, t);
    StoreContextPlain(Upload.ContextString(a + ['|'] + rest, t));
    PipeTruncatesFields(a, rest, t);
  }

  lemma PipeTruncatesFields(a: string, rest: string, t: int)
    requires '|' !in a && '=' !in rest
    ensures Fields(Split(Upload.ContextString(a + ['|'] + rest, t), '|')) ==
              map[PasswordKey := a, ExpiresKey := IntToDecimal(t)]
  {
    var dec := IntToDecimal(t);
    var head := PasswordKey + ['='] + a;
    var tail := ExpiresKey + ['='] + dec;
    ContextShape(a + ['|'] + rest, t);
    assert Upload.ContextString(a + ['|'] + rest, t) == head + ['|'] + (rest + ['|'] + tail);
    KeysPlain();
    assert '|' !in head;
    DecimalHasNoPipe(t);
    SplitThree(head, '|', rest, tail);
    SplitPartsAvoid(rest, '|', '=');
    SplitOnceAt(PasswordKey, '=', a);
    SplitOnceAt(ExpiresKey, '=', dec);
    FieldsThree(head, Split(rest, '|'), tail);
  }

  /** Splitting `head|rest|tail` with no delimiter in `head` or `tail`. */
  lemma SplitThree(head: string, d: char, rest: string, tail: string)
    requires d !in head && d !in tail
    ensures Split(head + [d] + (rest + [d] + tail), d) == [head] + Split(rest, d) + [tail]
  {
    SplitCons(head, d, rest + [d] + tail);
    SplitAppend(rest, d, tail);
  }

  /** A first and a last field with `=`, and nothing in between that has one. */
  lemma FieldsThree(head: string, middle: seq<string>, tail: string)
    requires SplitOnce(head, '=').2 && SplitOnce(tail, '=').2
    requires forall j :: 0 <= j < |middle| ==> '=' !in middle[j]
    ensures Fields([head] + middle + [tail]) ==
              map[SplitOnce(head, '=').0 := SplitOnce(head, '=').1,
                  SplitOnce(tail, '=').0 := SplitOnce(tail, '=').1]
  {
    var parts := [head] + middle + [tail];
    var p, q := SplitOnce(head, '='), SplitOnce(tail, '=');
    assert parts[..|parts| - 1] == [head] + middle;
    assert parts[|parts| - 1] == tail;
    FieldsSkip([head], middle);
    assert [head][..0] == [];
    assert Fields([head]) == map[p.0 := p.1];
  }

  /** The metadata the store holds for a file uploaded through the page. */
  function UploadedMeta(password: string, hours: Upload.Hours, uploadedAt: int): (meta: Access.Metadata)
  {
    StoreContext(Upload.ContextString(password, Upload.ExpiresAt(uploadedAt, hours)))
  }

  /** A file uploaded through the page is never reported as unmanaged: whatever
      the password holds, the first field reads as the key `password`. */
  lemma UploadedIsManaged(password: string, hours: Upload.Hours, uploadedAt: int, attempt: string, now: int)
    ensures PasswordKey in UploadedMeta(password, hours, uploadedAt)
    ensures Access.Decide(Access.Present(UploadedMeta(password, hours, uploadedAt)), attempt, now) != Access.Unmanaged
  {
    var t := Upload.ExpiresAt(uploadedAt, hours);
    ContextShape(password, t);
    var r := password + ['|'] + (ExpiresKey + ['='] + IntToDecimal(t));
    assert Upload.ContextString(password, t) == PasswordKey + ['='] + r;
    KeysPlain();
    FirstFieldKey(PasswordKey, r);
  }

  /** A text that starts with a plain key and `=` decodes to a map holding that key. */
  lemma FirstFieldKey(key: string, r: string)
    requires '=' !in key && '|' !in key && '\\' !in key
    ensures key in StoreContext(key + ['='] + r)
  {
    var x := key + ['='];
    assert key + ['='] + r == x + r;
    UnitsAfterPlain(x, r);
    PlainAppend(key, ['=']);
    var k := Plain(key);
    assert Plain(x) == k + [Sep('=')];
    PlainAvoids(key, '|');
    PlainAvoids(key, '=');
    var fields := Split(Units(x + r), Sep('|'));
    SplitFirst(Plain(x), Units(r), Sep('|'));
    var g := Split(Units(r), Sep('|'))[0];
    assert fields[0] == k + [Sep('=')] + g;
    SplitOnceAt(k, Sep('='), g);
    UnitFieldsKeepsKey(fields, 0);
    CharsPlain(key);
  }

  /** After its expiry time every visitor, the owner included, sees Expired. */
  lemma ExpiredAfterUpload(password: string, hours: Upload.Hours, uploadedAt: int, attempt: string, now: int)
    requires '\\' !in password
    requires uploadedAt >= 0
    requires now > Upload.ExpiresAt(uploadedAt, hours)
    ensures Access.Decide(Access.Present(UploadedMeta(password, hours, uploadedAt)), attempt, now) == Access.Expired
  {
    ExpirySurvivesPassword(password, Upload.ExpiresAt(uploadedAt, hours));
  }

  /** Until its expiry time a file uploaded with a password free of `|` and
      backslashes opens
      exactly for attempts that strip to the same text, and shows the whole
      minutes left; right after the upload that is the full slider setting. */
  lemma AccessBeforeExpiry(password: string, hours: Upload.Hours, uploadedAt: int, attempt: string, now: int)
    requires '|' !in password && '\\' !in password
    requires now <= Upload.ExpiresAt(uploadedAt, hours)
    ensures var o := Access.Decide(Access.Present(UploadedMeta(password, hours, uploadedAt)), attempt, now);
      (o.Granted? <==> Strip(attempt) == Strip(password)) &&
      (o.Granted? ==> o.minsLeft == Access.MinsLeft(Upload.ExpiresAt(uploadedAt, hours), now)) &&
      (o.Granted? && now == uploadedAt ==> o.minsLeft == 60 * hours) &&
      (!o.Granted? ==> o == (if attempt != [] then Access.Denied else Access.AwaitingInput))
  {
    var t := Upload.ExpiresAt(uploadedAt, hours);
    var meta := UploadedMeta(password, hours, uploadedAt);
    ContextRoundTrip(password, t);
    ExpirySurvivesPassword(password, t);
    assert meta != map[];
    assert Access.StoredPassword(meta) == password;
    Access.PasswordCheck(meta, attempt, now);
    FullMinutesAtUpload(uploadedAt, hours);
  }

  /** Right after an upload the page would show the whole slider setting in minutes. */
  lemma FullMinutesAtUpload(uploadedAt: int, hours: Upload.Hours)
    ensures Access.MinsLeft(Upload.ExpiresAt(uploadedAt, hours), uploadedAt) == 60 * hours
  {
    assert Upload.ExpiresAt(uploadedAt, hours) - uploadedAt == (60 * hours) * 60;
  }

  // The scenario of a one-hour upload protected by "x7".

  lemma StripX7()
    ensures Strip("x7") == "x7"
  {
    StripKeeps("x7");
  }

  lemma StripX8()
    ensures Strip("x8") == "x8"
  {
    StripKeeps("x8");
  }

  /** Right after an upload with a password free of `|` and backslashes, the owner is granted the
      full slider setting in minutes, with or without surrounding whitespace. */
  lemma OwnerGrantedAtUpload(password: string, pad1: string, pad2: string, hours: Upload.Hours, uploadedAt: int)
    requires '|' !in password && '\\' !in password && AllSpace(pad1) && AllSpace(pad2)
    ensures Access.Decide(Access.Present(UploadedMeta(password, hours, uploadedAt)), password, uploadedAt) ==
              Access.Granted(60 * hours)
    ensures Access.Decide(Access.Present(UploadedMeta(password, hours, uploadedAt)), pad1 + password + pad2, uploadedAt) ==
              Access.Granted(60 * hours)
  {
    StripPadded(pad1, password, pad2);
    AccessBeforeExpiry(password, hours, uploadedAt, password, uploadedAt);
    AccessBeforeExpiry(password, hours, uploadedAt, pad1 + password + pad2, uploadedAt);
  }

  /** Right after the upload the owner is granted access with 60 minutes left,
      with or without surrounding spaces. */
  lemma OneHourOwnerGranted(uploadedAt: int)
    ensures Access.Decide(Access.Present(UploadedMeta("x7", 1, uploadedAt)), "x7", uploadedAt) == Access.Granted(60)
    ensures Access.Decide(Access.Present(UploadedMeta("x7", 1, uploadedAt)), " x7 ", uploadedAt) == Access.Granted(60)
  {
    assert " x7 " == " " + "x7" + " ";
    assert "x7" == ['x', '7'];
    assert AllSpace(" ");
    OwnerGrantedAtUpload("x7", " ", " ", 1, uploadedAt);
  }

  /** Before expiry a wrong password is denied and an empty one is awaited. */
  lemma OneHourOthersKeptOut(uploadedAt: int)
    ensures Access.Decide(Access.Present(UploadedMeta("x7", 1, uploadedAt)), "x8", uploadedAt) == Access.Denied
    ensures Access.Decide(Access.Present(UploadedMeta("x7", 1, uploadedAt)), [], uploadedAt) == Access.AwaitingInput
  {
    StripX7();
    StripX8();
    assert "x7" == ['x', '7'];
    AccessBeforeExpiry("x7", 1, uploadedAt, "x8", uploadedAt);
    AccessBeforeExpiry("x7", 1, uploadedAt, [], uploadedAt);
  }

  /** Two hours later even the right password meets Expired. */
  lemma OneHourExpiredLater(uploadedAt: int)
    requires uploadedAt >= 0
    ensures Access.Decide(Access.Present(UploadedMeta("x7", 1, uploadedAt)), "x7", uploadedAt + 7200) == Access.Expired
  {
    assert "x7" == ['x', '7'];
    ExpiredAfterUpload("x7", 1, uploadedAt, "x7", uploadedAt + 7200);
  }

  // A password with a `|` in it.

  /** `|` is not whitespace, so stripping keeps it; a `|`-free text strips to `|`-free text. */
  lemma PipeSurvivesStrip(a: string, rest: string)
    requires '|' !in a
    ensures '|' in Strip(a + ['|'] + rest) && '|' !in Strip(a)
  {
    var s := a + ['|'] + rest;
    var i, j := StripShape(s);
    assert s[|a|] == '|';
    NoPipeInSpace(s[..i]);
    NoPipeInSpace(s[j..]);
    assert s == s[..i] + s[i..j] + s[j..];
    var p, q := StripShape(a);
    forall k | 0 <= k < q - p ensures a[p..q][k] != '|' {
      assert a[p..q][k] == a[p + k];
    }
  }

  lemma NoPipeInSpace(t: string)
    requires AllSpace(t)
    ensures '|' !in t
  {
    forall k | 0 <= k < |t| ensures t[k] != '|' {
      assert IsSpace(t[k]);
    }
  }

  /** Before expiry, a file uploaded with a password `a|rest` (no `=` after the
      `|`, no backslash) refuses that very password and opens for its prefix `a`. */
  lemma PipePasswordLockout(a: string, rest: string, hours: Upload.Hours, uploadedAt: int, now: int)
    requires '|' !in a && '=' !in rest && '\\' !in a && '\\' !in rest
    requires now <= Upload.ExpiresAt(uploadedAt, hours)
    ensures Access.Decide(Access.Present(UploadedMeta(a + ['|'] + rest, hours, uploadedAt)), a + ['|'] + rest, now) == Access.Denied
    ensures Access.Decide(Access.Present(UploadedMeta(a + ['|'] + rest, hours, uploadedAt)), a, now) ==
              Access.Granted(Access.MinsLeft(Upload.ExpiresAt(uploadedAt, hours), now))
  {
    var p := a + ['|'] + rest;
    var t := Upload.ExpiresAt(uploadedAt, hours);
    var meta := UploadedMeta(p, hours, uploadedAt);
    PipeTruncatesPassword(a, rest, t);
    ExpirySurvivesPassword(p, t);
    assert Access.StoredPassword(meta) == a;
    PipeSurvivesStrip(a, rest);
    Access.PasswordCheck(meta, p, now);
    Access.PasswordCheck(meta, a, now);
  }

  /** The password `a|b`, one hour, uploaded at time 0: the store keeps the
      password `a`, the owner's `a|b` is refused and `a` opens the file. */
  lemma PipePasswordExample()
    ensures UploadedMeta("a|b", 1, 0) == map[PasswordKey := "a", ExpiresKey := IntToDecimal(3600)]
    ensures Access.Decide(Access.Present(UploadedMeta("a|b", 1, 0)), "a|b", 0) == Access.Denied
    ensures Access.Decide(Access.Present(UploadedMeta("a|b", 1, 0)), "a", 0) == Access.Granted(60)
  {
    assert "a|b" == "a" + ['|'] + "b";
    assert "a" == ['a'] && "b" == ['b'];
    PipeTruncatesPassword("a", "b", 3600);
    PipePasswordLockout("a", "b", 1, 0, 0);
    FullMinutesAtUpload(0, 1);
  }

  // A password ending in a backslash.

  /** The password is written without escaping, so a final backslash escapes
      the `|` that follows it: the store reads a single field, whose password
      is the rest of the string, and no `expires_at` key. */
  lemma BackslashSwallowsExpiry(a: string, t: int)
    requires '|' !in a && '\\' !in a
    ensures StoreContext(Upload.ContextString(a + ['\\'], t)) ==
              map[PasswordKey := a + ['|'] + ExpiresKey + ['='] + IntToDecimal(t)]
  {
    var tail := ExpiresKey + ['='] + IntToDecimal(t);
    ContextShape(a + ['\\'], t);
    assert Upload.ContextString(a + ['\\'], t) == PasswordKey + ['='] + a + (['\\', '|'] + tail);
    KeysPlain();
    DecimalHasNoPipe(t);
    EscapedPipeDecode(PasswordKey, a, tail);
    assert a + ['|'] + tail == a + ['|'] + ExpiresKey + ['='] + IntToDecimal(t);
  }

  /** `key=a\|tail`, none of the three holding a backslash or a `|`, reads as
      one field: `key` with the value `a|tail`. */
  lemma EscapedPipeDecode(key: string, a: string, tail: string)
    requires '=' !in key && '|' !in key && '\\' !in key
    requires '|' !in a && '\\' !in a && '|' !in tail && '\\' !in tail
    ensures StoreContext(key + ['='] + a + (['\\', '|'] + tail)) == map[key := a + ['|'] + tail]
  {
    var x := key + ['='] + a;
    EscapedPipeUnits(x, tail);
    var v := Plain(a) + [Lit('|')] + Plain(tail);
    PlainAppend(key, ['=']);
    PlainAppend(key + ['='], a);
    assert Plain(x) + [Lit('|')] + Plain(tail) == Plain(key) + [Sep('=')] + v;
    PlainAvoids(a, '|');
    PlainAvoids(tail, '|');
    assert Sep('|') !in v;
    SingleFieldDecode(key, v);
    CharsAppend(Plain(a) + [Lit('|')], Plain(tail));
    CharsAppend(Plain(a), [Lit('|')]);
    CharsPlain(a);
    CharsPlain(tail);
    assert Chars([Lit('|')]) == ['|'];
  }

  /** An escaped `|` between two backslash-free texts reads as one literal. */
  lemma EscapedPipeUnits(x: string, tail: string)
    requires '\\' !in x && '\\' !in tail
    ensures Units(x + (['\\', '|'] + tail)) == Plain(x) + [Lit('|')] + Plain(tail)
  {
    UnitsAfterPlain(x, ['\\', '|'] + tail);
    UnitsEscape('|', tail);
    UnitsAfterPlain(tail, []);
    assert tail + [] == tail;
  }

  /** Units without a `|` separator form one field, read at its first `=`. */
  lemma SingleFieldDecode(key: string, v: seq<Unit>)
    requires '=' !in key && '|' !in key && Sep('|') !in v
    ensures UnitFields(Split(Plain(key) + [Sep('=')] + v, Sep('|'))) == map[key := Chars(v)]
  {
    var us := Plain(key) + [Sep('=')] + v;
    PlainAvoids(key, '|');
    PlainAvoids(key, '=');
    assert Sep('|') !in us;
    SplitNoDelimiter(us, Sep('|'));
    SplitOnceAt(Plain(key), Sep('='), v);
    assert [us][..0] == [];
    CharsPlain(key);
  }

  /** A file uploaded with a password ending in a backslash never expires, and
      its owner's password is refused at every time. */
  lemma BackslashPasswordNeverExpires(a: string, hours: Upload.Hours, uploadedAt: int, attempt: string, now: int)
    requires '|' !in a && '\\' !in a
    ensures Access.ExpiryOf(UploadedMeta(a + ['\\'], hours, uploadedAt)) == 0
    ensures Access.Decide(Access.Present(UploadedMeta(a + ['\\'], hours, uploadedAt)), attempt, now) != Access.Expired
    ensures Access.Decide(Access.Present(UploadedMeta(a + ['\\'], hours, uploadedAt)), a + ['\\'], now) == Access.Denied
  {
    var t := Upload.ExpiresAt(uploadedAt, hours);
    var rest := ExpiresKey + ['='] + IntToDecimal(t);
    var meta := UploadedMeta(a + ['\\'], hours, uploadedAt);
    BackslashSwallowsExpiry(a, t);
    KeysPlain();
    assert ExpiresKey !in meta;
    assert Access.StoredPassword(meta) == a + ['|'] + rest;
    PipeSurvivesStrip(a, rest);
    PipeSurvivesStrip(a + ['\\'], []);
    Access.PasswordCheck(meta, a + ['\\'], now);
  }

  /** The password `x\`, one hour, uploaded at time 0: the store keeps the
      password `x|expires_at=3600`, and two hours later the file is still
      open, though not to its owner's `x\`. */
  lemma BackslashPasswordExample()
    ensures UploadedMeta("x\\", 1, 0) == map[PasswordKey := "x" + ['|'] + ExpiresKey + ['='] + IntToDecimal(3600)]
    ensures Access.Decide(Access.Present(UploadedMeta("x\\", 1, 0)), "x\\", 7200) == Access.Denied
  {
    assert "x\\" == ['x'] + ['\\'];
    BackslashSwallowsExpiry("x", 3600);
    BackslashPasswordNeverExpires("x", 1, 0, "x\\", 7200);
  }

  /** An upload gate that also refuses `|` and backslashes: what the page
      evidently intends, since the metadata string uses `|` to separate its
      fields and a backslash to escape a separator. */
  predicate SafeUploadEnabled(password: string)
  {
    Upload.UploadEnabled(password) && '|' !in password && '\\' !in password
  }

  /** With that gate, every file opens for its owner's password until its
      expiry time, and for exactly the attempts that strip to that password;
      after it (for an upload time not before the epoch) every visitor meets
      Expired. */
  lemma SafeUploadOpensForOwner(password: string, hours: Upload.Hours, uploadedAt: int, attempt: string, now: int)
    requires SafeUploadEnabled(password)
    ensures now <= Upload.ExpiresAt(uploadedAt, hours) ==>
              Access.Decide(Access.Present(UploadedMeta(password, hours, uploadedAt)), password, now) ==
                Access.Granted(Access.MinsLeft(Upload.ExpiresAt(uploadedAt, hours), now))
    ensures now <= Upload.ExpiresAt(uploadedAt, hours) ==>
              (Access.Decide(Access.Present(UploadedMeta(password, hours, uploadedAt)), attempt, now).Granted? <==>
                 Strip(attempt) == Strip(password))
    ensures uploadedAt >= 0 && now > Upload.ExpiresAt(uploadedAt, hours) ==>
              Access.Decide(Access.Present(UploadedMeta(password, hours, uploadedAt)), attempt, now) == Access.Expired
  {
    if now <= Upload.ExpiresAt(uploadedAt, hours) {
      AccessBeforeExpiry(password, hours, uploadedAt, password, now);
      AccessBeforeExpiry(password, hours, uploadedAt, attempt, now);
    } else if uploadedAt >= 0 {
      ExpiredAfterUpload(password, hours, uploadedAt, attempt, now);
    }
  }
}
