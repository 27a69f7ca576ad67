/** Script-based language detection (`detectLanguage` in server/routes/chat.ts). */
module Language {
  import opened Api
  import opened JsString

  /** A Unicode block, given by its first and last code point. */
  datatype Block = Block(first: char, last: char)

  const Devanagari := Block('\U{0900}', '\U{097F}')
  const Bengali := Block('\U{0980}', '\U{09FF}')
  const Tamil := Block('\U{0B80}', '\U{0BFF}')

  /** Some character of `s` lies in block `b`. */
  ghost predicate HasScript(s: string, b: Block) {
    exists i :: 0 <= i < |s| && b.first <= s[i] <= b.last
  }

  /** The regular-expression test `/[first-last]/.test(s)`, scanning left to right. */
  function TestBlock(s: string, b: Block): (r: bool)
    ensures r <==> HasScript(s, b)
  {
    if s == [] then false
    else if b.first <= s[0] <= b.last then true
    else
      var rest := TestBlock(s[1..], b);
      assert HasScript(s, b) ==> HasScript(s[1..], b) by {
        if HasScript(s, b) {
          var i :| 0 <= i < |s| && b.first <= s[i] <= b.last;
          assert s[1..][i - 1] == s[i];
        }
      }
      assert HasScript(s[1..], b) ==> HasScript(s, b) by {
        if HasScript(s[1..], b) {
          var i :| 0 <= i < |s[1..]| && b.first <= s[1..][i] <= b.last;
          assert s[i + 1] == s[1..][i];
        }
      }
      rest
  }

  /**
   * Devanagari wins over Bengali, Bengali over Tamil, and anything else is English.
   * Marathi shares the Devanagari script and is never detected.
   */
  function DetectLanguage(s: string): (r: LanguageCode)
    ensures r == Hi <==> HasScript(s, Devanagari)
    ensures r == Bn <==> !HasScript(s, Devanagari) && HasScript(s, Bengali)
    ensures r == Ta <==> !HasScript(s, Devanagari) && !HasScript(s, Bengali) && HasScript(s, Tamil)
    ensures r == En <==> !HasScript(s, Devanagari) && !HasScript(s, Bengali) && !HasScript(s, Tamil)
    ensures r != Mr
  {
    if TestBlock(s, Devanagari) then Hi
    else if TestBlock(s, Bengali) then Bn
    else if TestBlock(s, Tamil) then Ta
    else En
  }

  /** A block beyond ASCII holds no letter whose case could change, so the test ignores ASCII case. */
  lemma ScriptIgnoresCase(a: string, b: string, blk: Block)
    requires SameUpToCase(a, b) && blk.first > 'z'
    ensures HasScript(a, blk) <==> HasScript(b, blk)
  {
    if HasScript(a, blk) {
      var i :| 0 <= i < |a| && blk.first <= a[i] <= blk.last;
      assert LowerChar(a[i]) == LowerChar(b[i]);
      assert b[i] == a[i];
    }
    if HasScript(b, blk) {
      var i :| 0 <= i < |b| && blk.first <= b[i] <= blk.last;
      assert LowerChar(a[i]) == LowerChar(b[i]);
      assert a[i] == b[i];
    }
  }

  /** Changing the case of ASCII letters never changes the detected language. */
  lemma DetectLanguageIgnoresCase(a: string, b: string)
    requires SameUpToCase(a, b)
    ensures DetectLanguage(a) == DetectLanguage(b)
  {
    ScriptIgnoresCase(a, b, Devanagari);
    ScriptIgnoresCase(a, b, Bengali);
    ScriptIgnoresCase(a, b, Tamil);
  }
}
