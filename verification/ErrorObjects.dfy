/** libusbp_error on memory (src/error.c): allocation that can fail, objects that are
    freed, static errors, copy on write and messages assembled in place.  The methods are
    proved to compute the functions of ErrorModel.dfy and to account for every block of
    memory; src/linux/error_linux.c is at the end. */
module ErrorObjects {
  import opened Base
  import opened ErrorModel
  import opened LinuxErrors

  /** The heap of the C library.  `live` is what has been allocated and not freed. */
  class Memory {
    var oracle: Oracle
    ghost var live: set<object>

    constructor (oracle: Oracle)
      ensures this.oracle == oracle && live == {}
    {
      this.oracle := oracle;
      live := {};
    }

    method MallocChars(n: nat) returns (block: array?<char>)
      modifies this
      ensures oracle == After(old(oracle))
      ensures block == null <==> Fails(old(oracle))
      ensures if block == null then live == old(live)
              else fresh(block) && block.Length == n && live == old(live) + {block}
    {
      block := null;
      if !Fails(oracle) {
        block := new char[n];
        live := live + {block};
      }
      oracle := After(oracle);
    }

    method MallocCodes(n: nat) returns (block: array?<nat>)
      modifies this
      ensures oracle == After(old(oracle))
      ensures block == null <==> Fails(old(oracle))
      ensures if block == null then live == old(live)
              else fresh(block) && block.Length == n && live == old(live) + {block}
    {
      block := null;
      if !Fails(oracle) {
        block := new nat[n];
        live := live + {block};
      }
      oracle := After(oracle);
    }

    /** realloc: on failure the old block stays, on success it is replaced. */
    method ReallocCodes(block: array?<nat>, used: nat, n: nat) returns (newBlock: array?<nat>)
      requires used <= n && (if block == null then used == 0 else block in live && used <= block.Length)
      modifies this
      ensures oracle == After(old(oracle))
      ensures newBlock == null <==> Fails(old(oracle))
      ensures if newBlock == null then live == old(live)
              else && fresh(newBlock) && newBlock.Length == n
                   && live == old(live) - {block} + {newBlock}
                   && newBlock[..used] == if block == null then [] else block[..used]
    {
      newBlock := null;
      if !Fails(oracle) {
        newBlock := new nat[n];
        if block != null {
          var i := 0;
          while i < used
            invariant 0 <= i <= used
            invariant newBlock[..i] == block[..i]
            modifies newBlock
          {
            newBlock[i] := block[i];
            i := i + 1;
          }
          live := live - {block};
        }
        live := live + {newBlock};
      }
      oracle := After(oracle);
    }

    method MallocError() returns (error: ErrorObject?)
      modifies this
      ensures oracle == After(old(oracle))
      ensures error == null <==> Fails(old(oracle))
      ensures if error == null then live == old(live) else fresh(error) && live == old(live) + {error}
    {
      error := null;
      if !Fails(oracle) {
        error := new ErrorObject(false, NoChars, 0, NoCodes);
        live := live + {error};
      }
      oracle := After(oracle);
    }

    /** free: of nothing, or of a block that is live. */
    method Free(block: object?)
      requires block != null ==> block in live
      modifies this`live
      ensures live == old(live) - {block}
    {
      if block != null {
        live := live - {block};
      }
    }
  }

  /** A `char *`: null, to the message of a static error, which is never written or freed,
      or to a block. */
  datatype CharPointer = NoChars | StaticChars(owner: Error) | HeapChars(block: array<char>)

  /** A `uint32_t *`, likewise. */
  datatype CodePointer = NoCodes | StaticCodes(codes: seq<nat>) | HeapCodes(block: array<nat>)

  /** struct libusbp_error. */
  class ErrorObject {
    var doNotFree: bool
    var message: CharPointer
    var codeCount: nat
    var codeArray: CodePointer

    constructor (doNotFree: bool, message: CharPointer, codeCount: nat, codeArray: CodePointer)
      ensures this.doNotFree == doNotFree && this.message == message
      ensures this.codeCount == codeCount && this.codeArray == codeArray
    {
      this.doNotFree, this.message, this.codeCount, this.codeArray := doNotFree, message, codeCount, codeArray;
    }
  }

  // ---- C strings ----

  predicate IsText(s: string) {
    NUL !in s
  }

  /** The bytes of a block that starts with the string and its terminator. */
  predicate IsCString(bytes: seq<char>, s: string) {
    IsText(s) && |s| < |bytes| && bytes[..|s|] == s && bytes[|s|] == NUL
  }

  lemma {:induction false} HasCString(bytes: seq<char>)
    requires NUL in bytes
    ensures exists s :: IsCString(bytes, s)
  {
    if bytes[0] == NUL {
      assert IsCString(bytes, "");
    } else {
      HasCString(bytes[1..]);
      var s :| IsCString(bytes[1..], s);
      assert bytes[..|s| + 1] == [bytes[0]] + s;
      assert IsCString(bytes, [bytes[0]] + s);
    }
  }

  /** The string at the start of a block. */
  ghost function CString(bytes: seq<char>): (s: string)
    requires NUL in bytes
    ensures IsCString(bytes, s)
  {
    HasCString(bytes);
    var s :| IsCString(bytes, s);
    s
  }

  /** A block holds one string only. */
  lemma CStringUnique(bytes: seq<char>, s: string)
    requires IsCString(bytes, s)
    ensures NUL in bytes && CString(bytes) == s
  {
    assert bytes[|s|] == NUL;
    var t := CString(bytes);
    assert forall k | 0 <= k < |t| :: bytes[k] == t[k] && t[k] in t && bytes[k] != NUL;
    assert forall k | 0 <= k < |s| :: bytes[k] == s[k] && s[k] in s && bytes[k] != NUL;
  }

  method Strlen(block: array<char>) returns (n: nat)
    requires NUL in block[..]
    ensures n < block.Length && IsCString(block[..], block[..n])
  {
    n := 0;
    while block[n] != NUL
      invariant n < block.Length && NUL in block[n..] && NUL !in block[..n]
      decreases block.Length - n
    {
      assert block[n..] == [block[n]] + block[n + 1..];
      assert block[..n + 1] == block[..n] + [block[n]];
      n := n + 1;
    }
    assert block[..][..n] == block[..n];
  }

  /** strncpy: the string, then zeros up to the count. */
  method Strncpy(block: array<char>, at: nat, s: string, n: nat)
    requires IsText(s) && at + n <= block.Length
    modifies block
    ensures forall k | 0 <= k < block.Length ::
      block[k] == if at <= k < at + n then (if k - at < |s| then s[k - at] else NUL) else old(block[k])
  {
    var i := 0;
    while i < n
      invariant 0 <= i <= n
      invariant forall k | 0 <= k < block.Length ::
        block[k] == if at <= k < at + i then (if k - at < |s| then s[k - at] else NUL) else old(block[k])
    {
      block[at + i] := if i < |s| then s[i] else NUL;
      i := i + 1;
    }
  }

  /** vsnprintf into a block, given the text that the format yields. */
  method Vsnprintf(block: array<char>, size: nat, text: string)
    requires IsText(text) && 0 < size <= block.Length
    modifies block
    ensures forall k | 0 <= k < block.Length ::
      block[k] == if k < size - 1 && k < |text| then text[k]
                  else if k == (if |text| < size then |text| else size - 1) then NUL
                  else old(block[k])
  {
    var i := 0;
    while i < size - 1 && i < |text|
      invariant 0 <= i <= size - 1 && i <= |text|
      invariant forall k | 0 <= k < block.Length :: block[k] == if k < i then text[k] else old(block[k])
    {
      block[i] := text[i];
      i := i + 1;
    }
    block[i] := NUL;
  }

  /** The assembly in error_add_v: writes the outer text, the separator and the inner
      message inside the block, and nothing beyond it.  Each part also writes a
      terminator, which the next part overwrites. */
  method AssembleMessage(block: array<char>, outer: string, inner: string, separatorLength: nat)
    requires IsText(outer) && IsText(inner)
    requires separatorLength == if inner != "" && outer != "" then 2 else 0
    requires block.Length == |outer| + separatorLength + |inner| + 1
    modifies block
    ensures IsCString(block[..], Join(outer, inner))
    ensures |Join(outer, inner)| + 1 == block.Length
  {
    Vsnprintf(block, |outer| + 1, outer);
    if separatorLength != 0 {
      Strncpy(block, |outer|, "  ", separatorLength + 1);
    }
    Strncpy(block, |outer| + separatorLength, inner, |inner| + 1);
    block[|outer| + separatorLength + |inner|] := NUL;
    var joined := Join(outer, inner);
    assert block[..][..|joined|] == joined;
  }

  /** The static errors of the library and the memory it works on. */
  class ErrorLibrary {
    const mem: Memory
    const noMemory: ErrorObject
    const masked: ErrorObject
    const blank: ErrorObject

    constructor (mem: Memory)
      ensures Valid() && this.mem == mem
    {
      this.mem := mem;
      noMemory := new ErrorObject(true, StaticChars(NoMemory), 1, StaticCodes([MEMORY]));
      masked := new ErrorObject(true, StaticChars(Masked), 1, StaticCodes([MEMORY]));
      blank := new ErrorObject(true, NoChars, 0, NoCodes);
    }

    /** The blocks that an error points to. */
    ghost function Blocks(e: ErrorObject?): set<object>
      reads e
    {
      if e == null then {} else CharBlock(e.message) + CodeBlock(e.codeArray)
    }

    ghost function CharBlock(p: CharPointer): set<object> {
      if p.HeapChars? then {p.block} else {}
    }

    ghost function CodeBlock(p: CodePointer): set<object> {
      if p.HeapCodes? then {p.block} else {}
    }

    /** Everything that must be freed with an error: the struct and its blocks. */
    ghost function Owned(e: ErrorObject?): set<object>
      reads e
    {
      if e == null || e.doNotFree then {} else {e} + Blocks(e)
    }

    /** The static errors are as they were made and are not on the heap: they are never
        written and never freed. */
    ghost predicate Valid()
      reads mem, noMemory, masked, blank
    {
      && noMemory != masked && masked != blank && noMemory != blank
      && {noMemory, masked, blank} !! mem.live
      && noMemory.doNotFree && masked.doNotFree && blank.doNotFree
      && noMemory.message == StaticChars(NoMemory) && masked.message == StaticChars(Masked)
      && blank.message == NoChars
      && noMemory.codeCount == masked.codeCount == 1 && blank.codeCount == 0
      && noMemory.codeArray == masked.codeArray == StaticCodes([MEMORY]) && blank.codeArray == NoCodes
    }

    /** An error on the heap has a heap message; its codes may be missing if it has none. */
    ghost predicate IsHeapError(e: ErrorObject)
      reads mem, e, Blocks(e)
    {
      && !e.doNotFree
      && e.message.HeapChars? && NUL in e.message.block[..]
      && !e.codeArray.StaticCodes?
      && (if e.codeArray.NoCodes? then e.codeCount == 0 else e.codeCount <= e.codeArray.block.Length)
      && Owned(e) <= mem.live
    }

    /** A pointer the library can be given: null, static, or on the heap and complete. */
    ghost predicate Good(e: ErrorObject?)
      reads mem, e, Blocks(e)
    {
      e == null || e == noMemory || e == masked || e == blank || IsHeapError(e)
    }

    ghost function Value(e: ErrorObject?): Error
      requires Good(e)
      reads mem, e, Blocks(e)
    {
      if e == null then Null
      else if e == noMemory then NoMemory
      else if e == masked then Masked
      else if e == blank then Blank
      else HeapValue(e)
    }

    ghost function HeapValue(e: ErrorObject): Error
      requires IsHeapError(e)
      reads mem, e, Blocks(e)
    {
      Heap(CString(e.message.block[..]), if e.codeArray.NoCodes? then [] else e.codeArray.block[..e.codeCount])
    }

    /** libusbp_error_free. */
    method Free(error: ErrorObject?)
      requires Valid() && Good(error)
      modifies mem`live
      ensures Valid()
      ensures mem.live == old(mem.live) - Owned(error)
    {
      if error != null && !error.doNotFree {
        FreeChars(error.message);
        if error.codeArray.HeapCodes? {
          mem.Free(error.codeArray.block);
        }
        mem.Free(error);
      }
    }

    /** free of a message: static storage must never get here. */
    method FreeChars(p: CharPointer)
      requires !p.StaticChars? && (p.HeapChars? ==> p.block in mem.live)
      modifies mem`live
      ensures mem.live == if p.HeapChars? then old(mem.live) - {p.block} else old(mem.live)
    {
      if p.HeapChars? {
        mem.Free(p.block);
      }
    }

    /** libusbp_error_copy. */
    method Copy(src: ErrorObject?) returns (r: ErrorObject?)
      requires Valid() && Good(src)
      modifies mem
      ensures Valid() && Good(r)
      ensures (Value(r), mem.oracle) == ErrorModel.Copy(old(Value(src)), old(mem.oracle))
      ensures mem.live == old(mem.live) + Owned(r)
      ensures r == src == null || r == masked || (r != null && fresh(r) && fresh(Owned(r)))
    {
      r := null;
      if src != null {
        r := CopyObject(src);
      }
    }

    method CopyObject(src: ErrorObject) returns (r: ErrorObject)
      requires Valid() && Good(src)
      modifies mem
      ensures Valid() && Good(r)
      ensures (Value(r), mem.oracle) == ErrorModel.Copy(old(Value(src)), old(mem.oracle))
      ensures mem.live == old(mem.live) + Owned(r)
      ensures r == masked || (IsHeapError(r) && fresh(r) && fresh(Owned(r)))
    {
      var text, codes := Contents(src);
      var copy := NewError(text, codes);
      if copy == null {
        return masked;
      }
      r := copy;
    }

    /** What there is to copy. */
    method Contents(src: ErrorObject) returns (text: string, codes: seq<nat>)
      requires Valid() && Good(src)
      ensures text == Message(Value(src)) && codes == Codes(Value(src))
      ensures IsText(text)
    {
      text, codes := "", [];
      match src.message {
        case NoChars =>
        case StaticChars(owner) =>
          text := StaticMessage(owner);
          StaticTexts(owner);
        case HeapChars(block) =>
          var length := Strlen(block);
          text := block[..length];
          CStringUnique(block[..], text);
      }
      match src.codeArray {
        case NoCodes =>
        case StaticCodes(values) => codes := values;
        case HeapCodes(block) => codes := block[..src.codeCount];
      }
    }

    lemma StaticTexts(e: Error)
      ensures IsText(StaticMessage(e))
    {
      assert NUL !in "Failed to allocate memory.";
      assert NUL !in "Failed to allocate memory for reporting an error.";
    }

    /** The three allocations of a copy.  All are attempted; if one that is needed fails,
        the others are freed. */
    method NewError(text: string, codes: seq<nat>) returns (r: ErrorObject?)
      requires IsText(text)
      modifies mem
      ensures var o := old(mem.oracle);
        && mem.oracle == After(After(After(o)))
        && (r == null <==> Fails(o) || Fails(After(o)) || (codes != [] && Fails(After(After(o)))))
      ensures mem.live == old(mem.live) + Owned(r)
      ensures r != null ==>
        fresh(r) && fresh(Owned(r)) && IsHeapError(r) && HeapValue(r) == Heap(text, codes)
    {
      var newError := mem.MallocError();
      var newMessage := mem.MallocChars(|text| + 1);
      var newCodes := mem.MallocCodes(|codes|);
      if newError == null || newMessage == null || (codes != [] && newCodes == null) {
        mem.Free(newError);
        mem.Free(newMessage);
        mem.Free(newCodes);
        assert mem.live == old(mem.live);
        return null;
      }
      FillError(newError, newMessage, newCodes, text, codes);
      r := newError;
    }

    /** The end of a copy, once there is memory for all its parts. */
    method FillError(e: ErrorObject, message: array<char>, codeArray: array?<nat>, text: string, codes: seq<nat>)
      requires IsText(text) && message.Length == |text| + 1 && {e, message} <= mem.live
      requires if codeArray == null then codes == [] else codeArray.Length == |codes| && codeArray in mem.live
      modifies e, message, codeArray
      ensures !e.doNotFree && e.message == HeapChars(message)
      ensures e.codeArray == if codeArray == null then NoCodes else HeapCodes(codeArray)
      ensures IsHeapError(e) && HeapValue(e) == Heap(text, codes)
    {
      if codes != [] {
        StoreCodes(codeArray, codes);
      }
      StoreText(message, text);
      e.doNotFree := false;
      e.message := HeapChars(message);
      e.codeCount := |codes|;
      e.codeArray := if codeArray == null then NoCodes else HeapCodes(codeArray);
      assert codeArray != null ==> codeArray[..|codes|] == codes;
    }

    method StoreCodes(to: array<nat>, codes: seq<nat>)
      requires to.Length == |codes|
      modifies to
      ensures to[..] == codes
    {
      var i := 0;
      while i < |codes|
        invariant 0 <= i <= |codes|
        invariant to[..i] == codes[..i]
      {
        to[i] := codes[i];
        i := i + 1;
      }
    }

    method StoreText(to: array<char>, text: string)
      requires to.Length == |text| + 1 && IsText(text)
      modifies to
      ensures NUL in to[..] && CString(to[..]) == text
    {
      Strncpy(to, 0, text, |text| + 1);
      assert to[..][..|text|] == text;
      CStringUnique(to[..], text);
    }

    /** error_make_mutable.  A mutable error is the one that was given, or a new one. */
    method MakeMutable(error: ErrorObject?) returns (r: ErrorObject)
      requires Valid() && Good(error)
      modifies mem
      ensures Valid() && Good(r)
      ensures (Value(r), mem.oracle) == ErrorModel.MakeMutable(old(Value(error)), old(mem.oracle))
      ensures mem.live - Owned(r) == old(mem.live) - old(Owned(error))
      ensures r.doNotFree ==> r == masked && Owned(r) == old(Owned(error)) == {}
      ensures !r.doNotFree ==> IsHeapError(r)
      ensures r == error || r == masked || (fresh(r) && fresh(Owned(r)))
    {
      var e := if error == null then blank else error;
      if e.doNotFree {
        r := CopyObject(e);
        assert r != masked ==> Owned(r) !! old(mem.live);
      } else {
        r := e;
      }
    }

    /** error_add_v, with the text that its format yields; `None` is a NULL format. */
    method AddText(error: ErrorObject?, format: Option<string>) returns (r: ErrorObject?)
      requires Valid() && Good(error) && (format.Some? ==> IsText(format.value))
      modifies mem, Owned(error)
      ensures Valid() && Good(r)
      ensures (Value(r), mem.oracle) == ErrorModel.AddText(old(Value(error)), format, old(mem.oracle))
      ensures mem.live == old(mem.live) - old(Owned(error)) + Owned(r)
      ensures fresh(Owned(r) - old(Owned(error)))
    {
      if format.None? {
        return error;
      }
      var e := MakeMutable(error);
      if e.doNotFree {
        return e;
      }
      r := AddToHeap(e, format.value);
    }

    /** The rest of error_add_v, on a mutable error. */
    method AddToHeap(e: ErrorObject, text: string) returns (r: ErrorObject)
      requires Valid() && IsHeapError(e) && IsText(text)
      modifies mem, Owned(e)
      ensures Valid() && Good(r)
      ensures (Value(r), mem.oracle) == ErrorModel.AddText(old(HeapValue(e)), Some(text), old(mem.oracle))
      ensures mem.live == old(mem.live) - old(Owned(e)) + Owned(r)
      ensures fresh(Owned(r) - old(Owned(e)))
    {
      var block := JoinedMessage(e, text);
      if block == null {
        Free(e);
        return masked;
      }
      CStringUnique(block[..], Join(text, CString(e.message.block[..])));
      FreeChars(e.message);
      e.message := HeapChars(block);
      r := e;
    }

    /** The new message, in a new block.  The message of a mutable error is never NULL, so
        the literal that would replace a NULL message never reaches the free above. */
    method JoinedMessage(e: ErrorObject, text: string) returns (block: array?<char>)
      requires IsHeapError(e) && IsText(text)
      modifies mem
      ensures mem.oracle == After(old(mem.oracle))
      ensures block == null <==> Fails(old(mem.oracle))
      ensures if block == null then mem.live == old(mem.live)
        else && fresh(block) && mem.live == old(mem.live) + {block}
             && IsCString(block[..], Join(text, CString(e.message.block[..])))
    {
      if e.message.NoChars? {
        assert false;
      }
      var innerLength := Strlen(e.message.block);
      var inner := e.message.block[..innerLength];
      CStringUnique(e.message.block[..], inner);
      var separatorLength := if innerLength != 0 && text != "" then 2 else 0;
      block := mem.MallocChars(|text| + separatorLength + innerLength + 1);
      if block != null {
        AssembleMessage(block, text, inner, separatorLength);
      }
    }

    /** error_add_code. */
    method AddCode(error: ErrorObject?, code: nat) returns (r: ErrorObject)
      requires Valid() && Good(error)
      modifies mem, Owned(error)
      ensures Valid() && Good(r)
      ensures (Value(r), mem.oracle) == ErrorModel.AddCode(old(Value(error)), code, old(mem.oracle))
      ensures mem.live == old(mem.live) - old(Owned(error)) + Owned(r)
      ensures fresh(Owned(r) - old(Owned(error)))
    {
      var e := MakeMutable(error);
      if e.doNotFree {
        return e;
      }
      r := AddCodeToHeap(e, code);
    }

    /** The rest of error_add_code, on a mutable error. */
    method AddCodeToHeap(e: ErrorObject, code: nat) returns (r: ErrorObject)
      requires Valid() && IsHeapError(e)
      modifies mem, Owned(e)
      ensures Valid() && Good(r)
      ensures (Value(r), mem.oracle) == ErrorModel.AddCode(old(HeapValue(e)), code, old(mem.oracle))
      ensures mem.live == old(mem.live) - old(Owned(e)) + Owned(r)
      ensures fresh(Owned(r) - old(Owned(e)))
    {
      assert |HeapValue(e).codes| == e.codeCount;
      if e.codeCount >= MAX_CODES {
        return e;
      }
      var newArray := GrowCodes(e, code);
      if newArray == null {
        Free(e);
        return masked;
      }
      e.codeArray := HeapCodes(newArray);
      e.codeCount := e.codeCount + 1;
      assert newArray[..e.codeCount] == newArray[..];
      r := e;
    }

    /** The reallocated code array, with the code in the new last element. */
    method GrowCodes(e: ErrorObject, code: nat) returns (newArray: array?<nat>)
      requires IsHeapError(e)
      modifies mem
      ensures mem.oracle == After(old(mem.oracle))
      ensures newArray == null <==> Fails(old(mem.oracle))
      ensures if newArray == null then mem.live == old(mem.live)
        else && fresh(newArray)
             && mem.live == old(mem.live) - CodeBlock(e.codeArray) + {newArray}
             && newArray.Length == e.codeCount + 1
             && newArray[..] == old(HeapValue(e)).codes + [code]
    {
      var oldArray := if e.codeArray.HeapCodes? then e.codeArray.block else null;
      newArray := mem.ReallocCodes(oldArray, e.codeCount, e.codeCount + 1);
      if newArray != null {
        newArray[e.codeCount] := code;
      }
    }

    /** libusbp_error_has_code. */
    method HasCode(error: ErrorObject?, code: nat) returns (found: bool)
      requires Valid() && Good(error)
      ensures found == ErrorModel.HasCode(Value(error), code)
    {
      if error == null {
        return false;
      }
      ghost var codes := Codes(Value(error));
      var i := 0;
      while i < error.codeCount
        invariant 0 <= i <= error.codeCount == |codes|
        invariant code !in codes[..i]
      {
        var current := if error.codeArray.HeapCodes? then error.codeArray.block[i] else error.codeArray.codes[i];
        assert current == codes[i];
        if current == code {
          return true;
        }
        assert codes[..i + 1] == codes[..i] + [codes[i]];
        i := i + 1;
      }
      assert codes[..i] == codes;
      found := false;
    }

    // ---- Any sequence of calls ----

    /** One call; a duplicate takes the place of the original, which is freed. */
    method Call(error: ErrorObject?, op: Op) returns (r: ErrorObject?)
      requires Valid() && Good(error) && (op.Text? && op.text.Some? ==> IsText(op.text.value))
      modifies mem, Owned(error)
      ensures Valid() && Good(r)
      ensures (Value(r), mem.oracle) == Apply(old(Value(error)), op, old(mem.oracle))
      ensures mem.live == old(mem.live) - old(Owned(error)) + Owned(r)
      ensures fresh(Owned(r) - old(Owned(error)))
    {
      match op
      case Text(text) =>
        r := AddText(error, text);
      case Code(code) =>
        r := AddCode(error, code);
      case Duplicate =>
        r := Replace(error);
    }

    method Replace(error: ErrorObject?) returns (r: ErrorObject?)
      requires Valid() && Good(error)
      modifies mem
      ensures Valid() && Good(r)
      ensures (Value(r), mem.oracle) == ErrorModel.Copy(old(Value(error)), old(mem.oracle))
      ensures mem.live == old(mem.live) - old(Owned(error)) + Owned(r)
      ensures fresh(Owned(r))
    {
      r := Copy(error);
      Free(error);
    }

    /** Whatever is called in whatever order, and whatever allocations fail: the error is
        the one of the model, and of all that the calls allocated, and of what the error
        owned before, exactly what it owns afterwards is left. */
    method CallAll(error: ErrorObject?, ops: seq<Op>) returns (r: ErrorObject?)
      requires Valid() && Good(error)
      requires forall op | op in ops :: op.Text? && op.text.Some? ==> IsText(op.text.value)
      modifies mem, Owned(error)
      ensures Valid() && Good(r)
      ensures (Value(r), mem.oracle) == Run(old(Value(error)), ops, old(mem.oracle))
      ensures mem.live == old(mem.live) - old(Owned(error)) + Owned(r)
      ensures fresh(Owned(r) - old(Owned(error)))
      decreases |ops|
    {
      r := error;
      if ops != [] {
        r := Call(error, ops[0]);
        r := CallAll(r, ops[1..]);
      }
    }

    // ---- src/linux/error_linux.c ----

    /** In the middle of building an error: all that was allocated since the start, and
        not freed, belongs to the error. */
    ghost predicate Building(e: ErrorObject?, base: set<object>)
      reads mem, noMemory, masked, blank, e, Blocks(e)
    {
      && Valid() && Good(e)
      && mem.live == base + Owned(e) && Owned(e) !! base
    }

    method Say(error: ErrorObject?, text: string, ghost base: set<object>) returns (r: ErrorObject?)
      requires Building(error, base) && IsText(text)
      modifies mem, Owned(error)
      ensures Building(r, base)
      ensures (Value(r), mem.oracle) == ErrorModel.AddText(old(Value(error)), Some(text), old(mem.oracle))
      ensures fresh(Owned(r) - old(Owned(error)))
    {
      r := AddText(error, Some(text));
    }

    /** One of the codes of a case of the switch, if the case has that many. */
    method Tag(error: ErrorObject?, codes: seq<nat>, i: nat, ghost base: set<object>) returns (r: ErrorObject?)
      requires Building(error, base)
      modifies mem, Owned(error)
      ensures Building(r, base)
      ensures (Value(r), mem.oracle) == CodeStage(old(Value(error)), codes, i, old(mem.oracle))
      ensures fresh(Owned(r) - old(Owned(error)))
    {
      r := error;
      if i < |codes| {
        r := AddCode(error, codes[i]);
      }
    }

    method TagAll(error: ErrorObject?, codes: seq<nat>, ghost base: set<object>) returns (r: ErrorObject?)
      requires Building(error, base) && |codes| <= 2
      modifies mem, Owned(error)
      ensures Building(r, base)
      ensures (Value(r), mem.oracle) == Run(old(Value(error)), CodeOps(codes), old(mem.oracle))
      ensures fresh(Owned(r) - old(Owned(error)))
    {
      CodesInStages(Value(error), codes, mem.oracle);
      r := Tag(error, codes, 0, base);
      r := Tag(r, codes, 1, base);
    }

    function CodeStage(e: Error, codes: seq<nat>, i: nat, o: Oracle): (Error, Oracle) {
      if i < |codes| then ErrorModel.AddCode(e, codes[i], o) else (e, o)
    }

    lemma CodesInStages(e: Error, codes: seq<nat>, o: Oracle)
      requires |codes| <= 2
      ensures var (e1, o1) := CodeStage(e, codes, 0, o);
        Run(e, CodeOps(codes), o) == CodeStage(e1, codes, 1, o1)
    {
      if |codes| > 0 {
        RunFirst(e, Code(codes[0]), CodeOps(codes[1..]), o);
        assert CodeOps(codes) == [Code(codes[0])] + CodeOps(codes[1..]);
        if |codes| > 1 {
          var (e1, o1) := CodeStage(e, codes, 0, o);
          RunFirst(e1, Code(codes[1]), [], o1);
          assert CodeOps(codes[1..]) == [Code(codes[1])] + [];
        }
      }
    }

    /** The switch of error_create_errno. */
    method SwitchOnErrno(e: ErrorObject?, errno: int, ghost base: set<object>)
      returns (error: ErrorObject?, skipStandardMessage: bool)
      requires Building(e, base)
      modifies mem, Owned(e)
      ensures Building(error, base)
      ensures (Value(error), mem.oracle) == Run(old(Value(e)), SwitchOps(errno), old(mem.oracle))
      ensures fresh(Owned(error) - old(Owned(e)))
      ensures skipStandardMessage == SkipsStandardMessage(errno)
    {
      var text, codes := None, [];
      if errno == EACCES {
        codes := [ACCESS_DENIED];
      } else if errno == ENOMEM {
        codes := [MEMORY];
      } else if errno == EPIPE {
        WordsAreText(GeneralFailure);
        text, codes := Some(Words(GeneralFailure)), [STALL, DEVICE_DISCONNECTED];
      } else if errno == ENODEV || errno == ESHUTDOWN {
        WordsAreText(Removed);
        text, codes := Some(Words(Removed)), [DEVICE_DISCONNECTED];
      } else if errno == EPROTO || errno == ETIME {
        codes := [DEVICE_DISCONNECTED];
      } else if errno == ETIMEDOUT {
        WordsAreText(TimedOut);
        text, codes := Some(Words(TimedOut)), [TIMEOUT];
      } else if errno == EOVERFLOW {
        WordsAreText(Overflowed);
        text := Some(Words(Overflowed));
      } else if errno == EILSEQ {
        WordsAreText(IllegalSequence);
        text, codes := Some(Words(IllegalSequence)), [DEVICE_DISCONNECTED, CANCELLED];
      }
      skipStandardMessage := text.Some?;
      SwitchCases(errno);
      error := SayAndTag(e, text, codes, base);
    }

    /** A case of the switch: the library's sentence, if it has one, then the codes. */
    method SayAndTag(e: ErrorObject?, text: Option<string>, codes: seq<nat>, ghost base: set<object>)
      returns (error: ErrorObject?)
      requires Building(e, base) && (text.Some? ==> IsText(text.value)) && |codes| <= 2
      modifies mem, Owned(e)
      ensures Building(error, base)
      ensures (Value(error), mem.oracle) == Run(old(Value(e)), CaseOps(text, codes), old(mem.oracle))
      ensures fresh(Owned(error) - old(Owned(e)))
    {
      error := e;
      if text.Some? {
        RunFirst(Value(e), Add(text.value), CodeOps(codes), mem.oracle);
        error := Say(e, text.value, base);
      }
      error := TagAll(error, codes, base);
    }

    /** error_create_errno, given what strerror_r says and the caller's context. */
    method CreateErrno(errno: int, standard: Option<string>, context: string) returns (error: ErrorObject?)
      requires Valid() && IsText(context) && (standard.Some? ==> IsText(standard.value))
      modifies mem
      ensures Building(error, old(mem.live)) && fresh(Owned(error))
      ensures (Value(error), mem.oracle) == Run(Null, ErrnoOps(errno, standard, context), old(mem.oracle))
    {
      ghost var base := mem.live;
      ErrnoInStages(errno, standard, context, mem.oracle);
      ErrorCodeIsText(errno);
      var skipStandardMessage;
      error := Say(null, ErrorCodeText(errno), base);
      assert fresh(Owned(error));
      error, skipStandardMessage := SwitchOnErrno(error, errno, base);
      assert fresh(Owned(error));
      error := SayRest(error, skipStandardMessage, standard, context, base);
    }

    method SayRest(e: ErrorObject?, skip: bool, standard: Option<string>, context: string, ghost base: set<object>)
      returns (error: ErrorObject?)
      requires Building(e, base) && IsText(context) && (standard.Some? ==> IsText(standard.value))
      modifies mem, Owned(e)
      ensures Building(error, base)
      ensures var (e1, o1) := StandardStage(old(Value(e)), skip, standard, old(mem.oracle));
        (Value(error), mem.oracle) == ErrorModel.AddText(e1, Some(context), o1)
      ensures fresh(Owned(error) - old(Owned(e)))
    {
      error := SayStandard(e, skip, standard, base);
      error := Say(error, context, base);
    }

    method SayStandard(e: ErrorObject?, skip: bool, standard: Option<string>, ghost base: set<object>)
      returns (error: ErrorObject?)
      requires Building(e, base) && (standard.Some? ==> IsText(standard.value))
      modifies mem, Owned(e)
      ensures Building(error, base)
      ensures (Value(error), mem.oracle) == StandardStage(old(Value(e)), skip, standard, old(mem.oracle))
      ensures fresh(Owned(error) - old(Owned(e)))
    {
      error := e;
      if !skip && standard.Some? {
        error := Say(e, standard.value + ".", base);
      }
    }

    function StandardStage(e: Error, skip: bool, standard: Option<string>, o: Oracle): (Error, Oracle) {
      if skip || standard.None? then (e, o) else ErrorModel.AddText(e, Some(standard.value + "."), o)
    }

    lemma RunFirst(e: Error, op: Op, ops: seq<Op>, o: Oracle)
      ensures var (e1, o1) := Apply(e, op, o); Run(e, [op] + ops, o) == Run(e1, ops, o1)
    {
      assert ([op] + ops)[1..] == ops;
    }

    function CaseOps(text: Option<string>, codes: seq<nat>): seq<Op> {
      if text.Some? then [Add(text.value)] + CodeOps(codes) else CodeOps(codes)
    }

    lemma ErrnoInStages(errno: int, standard: Option<string>, context: string, o: Oracle)
      ensures
        var (e1, o1) := ErrorModel.AddText(Null, Some(ErrorCodeText(errno)), o);
        var (e2, o2) := Run(e1, SwitchOps(errno), o1);
        var (e3, o3) := StandardStage(e2, SkipsStandardMessage(errno), standard, o2);
        Run(Null, ErrnoOps(errno, standard, context), o) == ErrorModel.AddText(e3, Some(context), o3)
    {
      var first := [Add(ErrorCodeText(errno))];
      var front := first + SwitchOps(errno);
      RunOneMore(Null, front + StandardOps(errno, standard), Add(context), o);
      RunAppend(Null, front, StandardOps(errno, standard), o);
      RunAppend(Null, first, SwitchOps(errno), o);
      RunOneMore(Null, [], first[0], o);
      assert [] + first == first;
      if StandardOps(errno, standard) != [] {
        var (e2, o2) := Run(Null, front, o);
        RunOneMore(e2, [], Add(standard.value + "."), o2);
        assert [] + StandardOps(errno, standard) == StandardOps(errno, standard);
      }
    }

    lemma SwitchCases(errno: int)
      ensures SwitchOps(errno) == CaseOps(SwitchText(errno), DocumentedCodes(errno))
    {}

    lemma WordsAreText(sentence: Sentence)
      requires sentence.GeneralFailure? || sentence.Removed? || sentence.TimedOut? || sentence.Overflowed?
               || sentence.IllegalSequence?
      ensures IsText(Words(sentence))
    {
      if sentence.GeneralFailure? {
        LongTexts("The request was invalid or ", "there was an I/O problem.", "");
      } else if sentence.IllegalSequence? {
        IllegalSequenceIsText();
      } else {
        ShortWordsAreText(sentence);
      }
    }

    lemma ShortWordsAreText(sentence: Sentence)
      requires sentence.Removed? || sentence.TimedOut? || sentence.Overflowed?
      ensures IsText(Words(sentence))
    {}

    lemma IllegalSequenceIsText()
      ensures IsText(Words(IllegalSequence))
    {
      assert IsText("Illegal byte sequence: ") by {
        assert NUL !in "Illegal byte sequence: ";
      }
      assert IsText("the device may have been disconnected or ") by {
        assert NUL !in "the device may have been disconnected or ";
      }
      LongTexts("Illegal byte sequence: ", "the device may have been disconnected or ",
                "the request may have been cancelled.");
    }

    lemma LongTexts(a: string, b: string, c: string)
      ensures IsText(a) && IsText(b) && IsText(c) ==> IsText(a + b + c) && IsText(a + b)
    {}

    lemma ErrorCodeIsText(errno: int)
      ensures IsText(ErrorCodeText(errno))
    {
      DecimalIsText(errno);
    }

    lemma {:induction false} DecimalIsText(n: int)
      ensures IsText(Decimal(n))
      decreases if n < 0 then 1 - n else n
    {
      if n < 0 {
        DecimalIsText(-n);
      } else if n >= 10 {
        DecimalIsText(n / 10);
      }
    }
  }
}
