/** Main memory: one buffer, cut into frames. */
module Ram {
  import opened Arith
  import opened Bytes

  class Memory {
    const memory: array<byte>
    const pageSize: nat
    const frameQty: nat

    constructor (frameQty: nat, pageSize: nat)
      ensures Wf() && fresh(memory) && this.frameQty == frameQty && this.pageSize == pageSize
    {
      MulMono(0, frameQty, pageSize);
      memory := new byte[frameQty * pageSize](_ => 0);
      this.frameQty, this.pageSize := frameQty, pageSize;
    }

    ghost predicate Wf() {
      memory.Length == frameQty * pageSize
    }

    lemma FrameFits(f: nat)
      requires Wf() && f < frameQty
      ensures 0 <= f * pageSize && f * pageSize + pageSize <= memory.Length
    {
      MulMono(0, f, pageSize);
      MulApart(f, frameQty, pageSize);
    }

    ghost function FrameAt(f: nat): Page
      requires Wf() && f < frameQty
      reads memory
    {
      FrameFits(f);
      memory[f * pageSize..f * pageSize + pageSize]
    }

    ghost function Pages(): (p: seq<Page>)
      requires Wf()
      reads memory
      ensures |p| == frameQty
      ensures forall f :: 0 <= f < frameQty ==> p[f] == FrameAt(f) && |p[f]| == pageSize
    {
      FramesSized();
      seq(frameQty, f requires 0 <= f < frameQty reads memory => FrameAt(f))
    }

    lemma FramesSized()
      requires Wf()
      ensures forall f :: 0 <= f < frameQty ==> |FrameAt(f)| == pageSize
    {
      forall f | 0 <= f < frameQty ensures |FrameAt(f)| == pageSize {
        FrameFits(f);
      }
    }

    /** Writes part of one frame; no other byte of memory changes. */
    method Edit(frame: nat, offset: nat, from: seq<byte>)
      requires Wf() && frame < frameQty && offset + |from| <= pageSize
      modifies memory
      ensures Pages() == old(Pages())[frame := Splice(old(Pages())[frame], offset, from)]
    {
      FrameFits(frame);
      var dest := frame * pageSize + offset;
      forall k | 0 <= k < |from| {
        memory[dest + k] := from[k];
      }
      forall f | 0 <= f < frameQty
        ensures FrameAt(f) == if f == frame then Splice(old(FrameAt(f)), offset, from) else old(FrameAt(f))
      {
        FrameFits(f);
        if f < frame {
          MulApart(f, frame, pageSize);
        } else if frame < f {
          MulApart(frame, f, pageSize);
        }
      }
    }

    method Read(frame: nat, offset: nat, size: nat) returns (content: seq<byte>)
      requires Wf() && frame < frameQty && offset + size <= pageSize
      ensures content == Pages()[frame][offset..offset + size]
    {
      FrameFits(frame);
      var src := frame * pageSize + offset;
      content := memory[src..src + size];
      SliceOfSlice(memory[..], frame * pageSize, frame * pageSize + pageSize, offset, size);
      assert Pages()[frame] == FrameAt(frame);
    }
  }
}
