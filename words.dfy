/** The word rules that the `submit_word` handler applies before accepting a
    word: the chain rule (the new word starts with the last code unit of the
    previous word) and the no-repeat rule. A word is kept as the JavaScript
    string the handler receives: a sequence of UTF-16 code units, so that a
    character outside the Basic Multilingual Plane is a surrogate pair and
    `slice(-1)` can cut it in half, as it does in the handler. */
module WordRules {

  /** A UTF-16 code unit. */
  type CodeUnit = bv16

  /** A JavaScript string, as its code units. */
  type Word = seq<CodeUnit>

  /** `s.slice(-1)`: the last code unit of `s`, or the empty string when `s` is empty. */
  function LastChar(s: Word): (r: Word)
    ensures |r| == if s == [] then 0 else 1
    ensures r == s[|s| - |r|..]
  {
    if s == [] then [] else [s[|s| - 1]]
  }

  /** `word.startsWith(prefix)`. */
  predicate StartsWith(word: Word, prefix: Word)
  {
    prefix <= word
  }

  /** What `startsWith` means: the word is at least as long as the prefix and
      agrees with it position by position. */
  lemma StartsWithMeaning(word: Word, prefix: Word)
    ensures StartsWith(word, prefix) <==>
      |prefix| <= |word| && forall i :: 0 <= i < |prefix| ==> word[i] == prefix[i]
  {
  }

  /** The chain check of the handler: with no previous word anything goes;
      otherwise the word must start with `lastWord.slice(-1)`. */
  predicate Chains(words: seq<Word>, word: Word)
  {
    |words| == 0 || StartsWith(word, LastChar(words[|words| - 1]))
  }

  /** What the chain rule means code unit by code unit: with no previous word,
      or after an empty last word, every word chains; after a non-empty last
      word, a chaining word is non-empty and its first code unit is the last
      code unit of that word. */
  lemma ChainsMeaning(words: seq<Word>, word: Word)
    ensures |words| == 0 ==> Chains(words, word)
    ensures |words| > 0 ==>
      var last := words[|words| - 1];
      (Chains(words, word) <==> last == [] || (|word| > 0 && word[0] == last[|last| - 1]))
  {
  }

  /** `slice(-1)` works on code units, so after a word ending in a character
      outside the Basic Multilingual Plane (U+1F600, the surrogate pair D83D
      DE00) only the low surrogate has to match: a word starting with that
      same character does not chain, since it starts with the high surrogate. */
  lemma LastCharSplitsPair()
    ensures LastChar([0x61, 0xD83D, 0xDE00]) == [0xDE00]
    ensures !Chains([[0x61, 0xD83D, 0xDE00]], [0xD83D, 0xDE00, 0x62])
    ensures Chains([[0x61, 0xD83D, 0xDE00]], [0xDE00, 0x62])
  {
  }

  /** Whether the history `words` obeys the chain rule throughout: every word
      after the first chains on the one before it. */
  ghost predicate IsChain(words: seq<Word>)
  {
    forall k {:trigger words[k]} :: 0 < k < |words| ==> Chains(words[..k], words[k])
  }

  /** Whether no word occurs twice in the history. */
  ghost predicate NoRepeats(words: seq<Word>)
  {
    forall i, j :: 0 <= i < j < |words| ==> words[i] != words[j]
  }

  /** Appending a word that chains and has not been used keeps a valid history
      valid: this is what the two checks of the handler are for. */
  lemma ExtendHistory(words: seq<Word>, word: Word)
    requires IsChain(words) && NoRepeats(words)
    requires Chains(words, word) && word !in words
    ensures IsChain(words + [word]) && NoRepeats(words + [word])
  {
  }
}
