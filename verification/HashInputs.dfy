/** The byte strings that the package hashes, MACs or feeds to HKDF (crypto.go, transcript.go,
    input.go, session.go), and why none of them is ambiguous. */
module HashInputs {
  import opened Bytes
  import opened LengthValue

  const SHA512_BLOCK_SIZE: nat := 128
  const SHA512_SIZE: nat := 64

  const DSI_X25519: bytes := Ascii("CPace255")
  const DSI_ISK: bytes := Ascii("CPace255_ISK")
  const MAC_PREFIX: bytes := Ascii("CPaceMac")
  const SID_PREFIX: bytes := Ascii("CPaceSidOutput")
  const EXPORT_PREFIX: bytes := Ascii("CPaceExport")

  function ZeroPadLength(prs: bytes): nat {
    var raw := SHA512_BLOCK_SIZE - LvLen(|prs|) - LvLen(|DSI_X25519|) - 1;
    if raw < 0 then 0 else raw
  }

  function GeneratorString(prs: bytes, ci: bytes, sid: bytes): bytes {
    LvCat([DSI_X25519, prs, Zeros(ZeroPadLength(prs)), ci, sid])
  }

  function BuildCI(initiatorID: bytes, responderID: bytes, context: bytes): bytes {
    LvCat([
      Ascii("CPace-Go-CI"), Ascii("draft-irtf-cfrg-cpace-21"), Ascii("CPACE-X25519-SHA512"),
      Ascii("initiator"), initiatorID, Ascii("responder"), responderID, Ascii("context"), context])
  }

  /** The initiator-responder transcript. */
  function TranscriptBytes(ya: bytes, ada: bytes, yb: bytes, adb: bytes): bytes {
    LvCat([ya, ada]) + LvCat([yb, adb])
  }

  function IskInput(sid: bytes, k: bytes, transcript: bytes): bytes {
    LvCat([DSI_ISK, sid, k]) + transcript
  }

  function MacKeyInput(sid: bytes, isk: bytes): bytes {
    MAC_PREFIX + sid + isk
  }

  function MacMessage(y: bytes, ad: bytes): bytes {
    LvCat([y, ad])
  }

  function TranscriptIdInput(transcript: bytes): bytes {
    SID_PREFIX + transcript
  }

  function ExportInfo(exportLabel: bytes, context: bytes): bytes {
    LvCat([EXPORT_PREFIX, exportLabel, context])
  }

  // ------------------------------------------------------- the strings, byte by byte

  lemma ShortLv(x: bytes)
    requires |x| < 128
    ensures Lv(x) == [|x|] + x
  {
  }

  /** The domain "CPace255", the password, the padding that fills a block, the channel info and the
      session ID, each behind its length. */
  lemma GeneratorStringLayout(prs: bytes, ci: bytes, sid: bytes)
    ensures GeneratorString(prs, ci, sid) ==
            [8] + Ascii("CPace255") + Lv(prs) + Lv(Zeros(if |Lv(prs)| < 118 then 118 - |Lv(prs)| else 0)) + Lv(ci) + Lv(sid)
  {
    ShortLv(Ascii("CPace255"));
    assert ZeroPadLength(prs) == if |Lv(prs)| < 118 then 118 - |Lv(prs)| else 0;
    LvCatFive(DSI_X25519, prs, Zeros(ZeroPadLength(prs)), ci, sid);
  }

  lemma LvCatTwo(a: bytes, b: bytes)
    ensures LvCat([a, b]) == Lv(a) + Lv(b)
  {
    assert LvCat([a, b][1..]) == Lv(b) + LvCat([]);
  }

  lemma LvCatThree(a: bytes, b: bytes, c: bytes)
    ensures LvCat([a, b, c]) == Lv(a) + Lv(b) + Lv(c)
  {
    ThreeFields([a, b, c]);
    assert Lv(a) + (Lv(b) + Lv(c)) == Lv(a) + Lv(b) + Lv(c);
  }

  lemma LvCatFive(a: bytes, b: bytes, c: bytes, d: bytes, e: bytes)
    ensures LvCat([a, b, c, d, e]) == Lv(a) + Lv(b) + Lv(c) + Lv(d) + Lv(e)
  {
    LvCatConcat([a, b, c], [d, e]);
    LvCatThree(a, b, c);
    LvCatTwo(d, e);
    assert [a, b, c] + [d, e] == [a, b, c, d, e];
  }

  lemma {:induction false} LvCatConcat(xs: seq<bytes>, ys: seq<bytes>)
    ensures LvCat(xs + ys) == LvCat(xs) + LvCat(ys)
  {
    if xs == [] {
      assert xs + ys == ys;
    } else {
      LvCatConcat(xs[1..], ys);
      assert (xs + ys)[1..] == xs[1..] + ys;
    }
  }

  /** The channel info names the package, the draft and the suite, and labels each identity. */
  lemma BuildCILayout(i: bytes, r: bytes, c: bytes)
    ensures BuildCI(i, r, c) ==
            ([11] + Ascii("CPace-Go-CI")) + ([24] + Ascii("draft-irtf-cfrg-cpace-21")) + ([19] + Ascii("CPACE-X25519-SHA512"))
            + (([9] + Ascii("initiator")) + Lv(i) + ([9] + Ascii("responder")) + Lv(r) + ([7] + Ascii("context"))) + Lv(c)
  {
    var xs := [Ascii("CPace-Go-CI"), Ascii("draft-irtf-cfrg-cpace-21"), Ascii("CPACE-X25519-SHA512")];
    var ys := [Ascii("initiator"), i, Ascii("responder"), r, Ascii("context")];
    LvCatConcat(xs + ys, [c]);
    LvCatConcat(xs, ys);
    LvCatThree(xs[0], xs[1], xs[2]);
    LvCatFive(ys[0], ys[1], ys[2], ys[3], ys[4]);
    ShortLv(xs[0]);
    ShortLv(xs[1]);
    ShortLv(xs[2]);
    ShortLv(ys[0]);
    ShortLv(ys[2]);
    ShortLv(ys[4]);
    assert LvCat([c]) == Lv(c) + LvCat([c][1..]);
    assert xs + ys + [c] == [xs[0], xs[1], xs[2], ys[0], ys[1], ys[2], ys[3], ys[4], c];
  }

  lemma TranscriptLayout(ya: bytes, ada: bytes, yb: bytes, adb: bytes)
    ensures TranscriptBytes(ya, ada, yb, adb) == Lv(ya) + Lv(ada) + Lv(yb) + Lv(adb)
  {
    LvCatTwo(ya, ada);
    LvCatTwo(yb, adb);
  }

  lemma IskInputLayout(sid: bytes, k: bytes, t: bytes)
    ensures IskInput(sid, k, t) == [12] + Ascii("CPace255_ISK") + Lv(sid) + Lv(k) + t
  {
    LvCatThree(DSI_ISK, sid, k);
    ShortLv(DSI_ISK);
  }

  lemma MacLayout(sid: bytes, isk: bytes, y: bytes, ad: bytes)
    ensures MacKeyInput(sid, isk) == Ascii("CPaceMac") + sid + isk
    ensures MacMessage(y, ad) == Lv(y) + Lv(ad)
  {
    LvCatTwo(y, ad);
  }

  lemma ExportInfoLayout(exportLabel: bytes, context: bytes)
    ensures ExportInfo(exportLabel, context) == [11] + Ascii("CPaceExport") + Lv(exportLabel) + Lv(context)
  {
    LvCatThree(EXPORT_PREFIX, exportLabel, context);
    ShortLv(EXPORT_PREFIX);
  }

  // ------------------------------------------------------- injectivity

  lemma TwoFields(a: bytes, b: bytes, r: bytes, a': bytes, b': bytes, r': bytes)
    requires LvCat([a, b]) + r == LvCat([a', b']) + r'
    ensures a == a' && b == b' && r == r'
  {
    LvCatSplit([a, b], r, [a', b'], r');
    assert [a, b][0] == [a', b'][0] && [a, b][1] == [a', b'][1];
  }

  lemma TranscriptInjective(ya: bytes, ada: bytes, yb: bytes, adb: bytes, ya': bytes, ada': bytes, yb': bytes, adb': bytes)
    requires TranscriptBytes(ya, ada, yb, adb) == TranscriptBytes(ya', ada', yb', adb')
    ensures ya == ya' && ada == ada' && yb == yb' && adb == adb'
  {
    TwoFields(ya, ada, LvCat([yb, adb]), ya', ada', LvCat([yb', adb']));
    assert LvCat([yb, adb]) + [] == LvCat([yb', adb']) + [];
    TwoFields(yb, adb, [], yb', adb', []);
  }

  /** The ISK input determines the session id, the shared secret and all four transcript fields. */
  lemma IskInputInjective(sid: bytes, k: bytes, ya: bytes, ada: bytes, yb: bytes, adb: bytes,
                          sid': bytes, k': bytes, ya': bytes, ada': bytes, yb': bytes, adb': bytes)
    requires IskInput(sid, k, TranscriptBytes(ya, ada, yb, adb)) == IskInput(sid', k', TranscriptBytes(ya', ada', yb', adb'))
    ensures sid == sid' && k == k'
    ensures ya == ya' && ada == ada' && yb == yb' && adb == adb'
  {
    var xs, ys := [DSI_ISK, sid, k], [DSI_ISK, sid', k'];
    LvCatSplit(xs, TranscriptBytes(ya, ada, yb, adb), ys, TranscriptBytes(ya', ada', yb', adb'));
    assert xs[1] == ys[1] && xs[2] == ys[2];
    TranscriptInjective(ya, ada, yb, adb, ya', ada', yb', adb');
  }

  /** The raw concatenation of the MAC key is unambiguous because the ISK has a fixed length. */
  lemma MacKeyInputInjective(sid: bytes, isk: bytes, sid': bytes, isk': bytes)
    requires |isk| == |isk'| == SHA512_SIZE && MacKeyInput(sid, isk) == MacKeyInput(sid', isk')
    ensures sid == sid' && isk == isk'
  {
    var s, n := MacKeyInput(sid, isk), |MAC_PREFIX|;
    assert s[n..|s| - SHA512_SIZE] == sid && s[|s| - SHA512_SIZE..] == isk;
    assert s[n..|s| - SHA512_SIZE] == sid' && s[|s| - SHA512_SIZE..] == isk';
  }

  lemma MacMessageInjective(y: bytes, ad: bytes, y': bytes, ad': bytes)
    requires MacMessage(y, ad) == MacMessage(y', ad')
    ensures y == y' && ad == ad'
  {
    assert MacMessage(y, ad) + [] == MacMessage(y', ad') + [];
    TwoFields(y, ad, [], y', ad', []);
  }

  lemma TranscriptIdInputInjective(t: bytes, t': bytes)
    requires TranscriptIdInput(t) == TranscriptIdInput(t')
    ensures t == t'
  {
    assert t == TranscriptIdInput(t)[|SID_PREFIX|..];
    assert t' == TranscriptIdInput(t')[|SID_PREFIX|..];
  }

  lemma ExportInfoInjective(exportLabel: bytes, context: bytes, exportLabel': bytes, context': bytes)
    requires ExportInfo(exportLabel, context) == ExportInfo(exportLabel', context')
    ensures exportLabel == exportLabel' && context == context'
  {
    var xs, ys := [EXPORT_PREFIX, exportLabel, context], [EXPORT_PREFIX, exportLabel', context'];
    LvCatInjective(xs, ys);
    assert xs[1] == ys[1] && xs[2] == ys[2];
  }

  lemma BuildCIInjective(i: bytes, r: bytes, c: bytes, i': bytes, r': bytes, c': bytes)
    requires BuildCI(i, r, c) == BuildCI(i', r', c')
    ensures i == i' && r == r' && c == c'
  {
    var xs := [Ascii("CPace-Go-CI"), Ascii("draft-irtf-cfrg-cpace-21"), Ascii("CPACE-X25519-SHA512"),
               Ascii("initiator"), i, Ascii("responder"), r, Ascii("context"), c];
    var ys := [Ascii("CPace-Go-CI"), Ascii("draft-irtf-cfrg-cpace-21"), Ascii("CPACE-X25519-SHA512"),
               Ascii("initiator"), i', Ascii("responder"), r', Ascii("context"), c'];
    LvCatInjective(xs, ys);
    assert xs[4] == ys[4] && xs[6] == ys[6] && xs[8] == ys[8];
  }

  /** Whatever the padding, equal generator strings mean equal password, channel info and session id. */
  lemma GeneratorStringInjective(prs: bytes, ci: bytes, sid: bytes, prs': bytes, ci': bytes, sid': bytes)
    requires GeneratorString(prs, ci, sid) == GeneratorString(prs', ci', sid')
    ensures prs == prs' && ci == ci' && sid == sid'
  {
    var xs := [DSI_X25519, prs, Zeros(ZeroPadLength(prs)), ci, sid];
    var ys := [DSI_X25519, prs', Zeros(ZeroPadLength(prs')), ci', sid'];
    LvCatInjective(xs, ys);
    assert xs[1] == ys[1] && xs[3] == ys[3] && xs[4] == ys[4];
  }

  /** The domain, password and padding fields fill exactly one SHA-512 block, or, for a password too
      long for that, exactly the unpadded length. */
  lemma PaddingFillsBlock(prs: bytes)
    ensures var unpadded := LvLen(|DSI_X25519|) + LvLen(|prs|) + 1;
            |LvCat([DSI_X25519, prs, Zeros(ZeroPadLength(prs))])| ==
            if unpadded < SHA512_BLOCK_SIZE then SHA512_BLOCK_SIZE else unpadded
  {
    var pad := Zeros(ZeroPadLength(prs));
    ThreeFields([DSI_X25519, prs, pad]);
  }

  // ------------------------------------------------------- the four SHA-512 uses never coincide

  /** Which of the four uses a hashed string belongs to can be read off its first six bytes. */
  lemma HashInputsDisjoint(prs: bytes, ci: bytes, gsid: bytes, sid: bytes, k: bytes, tr: bytes, msid: bytes, isk: bytes, tid: bytes)
    ensures GeneratorString(prs, ci, gsid) != IskInput(sid, k, tr)
    ensures GeneratorString(prs, ci, gsid) != MacKeyInput(msid, isk)
    ensures GeneratorString(prs, ci, gsid) != TranscriptIdInput(tid)
    ensures IskInput(sid, k, tr) != MacKeyInput(msid, isk)
    ensures IskInput(sid, k, tr) != TranscriptIdInput(tid)
    ensures MacKeyInput(msid, isk) != TranscriptIdInput(tid)
  {
    FirstByte([DSI_X25519, prs, Zeros(ZeroPadLength(prs)), ci, gsid]);
    FirstByte([DSI_ISK, sid, k]);
    assert GeneratorString(prs, ci, gsid)[0] == 8;
    assert IskInput(sid, k, tr)[0] == 12;
    assert MacKeyInput(msid, isk)[0] == 'C' as int && MacKeyInput(msid, isk)[5] == 'M' as int;
    assert TranscriptIdInput(tid)[0] == 'C' as int && TranscriptIdInput(tid)[5] == 'S' as int;
  }

  lemma FirstByte(xs: seq<bytes>)
    requires xs != [] && |xs[0]| < 128
    ensures |LvCat(xs)| > 0 && LvCat(xs)[0] == |xs[0]|
  {
    assert LvCat(xs)[0] == Lv(xs[0])[0];
  }
}
