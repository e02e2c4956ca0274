/** `Modules.ResourceConverter.ResourceConverter`: an input zone with a
    capacity, a count of resources in it, and a flag for a conversion that
    has been started. */
module Converters {
  import opened Int32

  class ResourceConverter {
    /** `InputCapacity`. */
    const inputCapacity: int32
    /** `OutputCapacity`. */
    const outputCapacity: int32
    /** `InputCount`. */
    var inputCount: int32
    /** `OutputCount`. */
    var outputCount: int32
    /** `IsConverting`. */
    var isConverting: bool

    /** The input count is not negative and within the capacity; a converter
        whose capacity is not positive holds nothing. */
    ghost predicate Valid()
      reads this
    {
      0 <= inputCount && (inputCount <= inputCapacity || inputCount == 0)
    }

    /** The state every converter is in from construction on: nothing in
        either zone and not converting. */
    ghost predicate Idle()
      reads this
    {
      inputCount == 0 && outputCount == 0 && !isConverting
    }

    /** `new ResourceConverter(inputCapacity, outputCapacity)`. */
    constructor(inputCapacity: int32, outputCapacity: int32)
      ensures this.inputCapacity == inputCapacity && this.outputCapacity == outputCapacity
      ensures inputCount == 0 && outputCount == 0 && !isConverting
      ensures Valid() && Idle()
    {
      this.inputCapacity := inputCapacity;
      this.outputCapacity := outputCapacity;
      inputCount := 0;
      outputCount := 0;
      isConverting := false;
    }

    /** `new ResourceConverter()`: both capacities default to 1. */
    constructor Default()
      ensures inputCapacity == 1 && outputCapacity == 1
      ensures inputCount == 0 && outputCount == 0 && !isConverting
      ensures Valid() && Idle()
    {
      inputCapacity := 1;
      outputCapacity := 1;
      inputCount := 0;
      outputCount := 0;
      isConverting := false;
    }

    /** `GetFreeInputResourceCount()`. An empty input zone reports no free
        room; otherwise adding the result fills the zone exactly to capacity.
        The subtraction never leaves 32-bit range. */
    function GetFreeInputResourceCount(): (r: int32)
      reads this
      ensures inputCount <= 0 || inputCapacity <= 0 ==> r == 0
      ensures r != 0 ==> inputCount as int + r as int == inputCapacity as int
      ensures Valid() ==> 0 <= r
      ensures Valid() && 0 < inputCount ==> inputCount as int + r as int == inputCapacity as int
    {
      if inputCapacity <= 0 || inputCount <= 0 || inputCount == inputCapacity then 0
      else inputCapacity - inputCount
    }

    /** `AddInputResource(count, out changeCount)`: the free count taken
        before the call is added whatever `count` is, and the part of `count`
        beyond it is handed back. Only `InputCount` changes. */
    method AddInputResource(count: int32) returns (changeCount: int32)
      modifies this`inputCount
      ensures inputCount as int == old(inputCount) as int + old(GetFreeInputResourceCount()) as int
      ensures changeCount == if count > old(GetFreeInputResourceCount()) then Wrap(count as int - old(GetFreeInputResourceCount()) as int) else 0
      ensures old(Valid()) ==> Valid()
      ensures old(Valid()) ==> 0 <= changeCount && (count > 0 ==> changeCount <= count)
      ensures old(Idle()) ==> Idle() && changeCount == if count > 0 then count else 0
    {
      var canAddCount := GetFreeInputResourceCount();
      inputCount := inputCount + canAddCount;
      if count > canAddCount {
        changeCount := Wrap(count as int - canAddCount as int);
      } else {
        changeCount := 0;
      }
    }

    /** `StartConverting()`: raises the flag when there is input; never
        lowers it. */
    method StartConverting()
      modifies this`isConverting
      ensures isConverting == (old(isConverting) || inputCount > 0)
      ensures old(Idle()) ==> Idle()
    {
      if inputCount > 0 {
        isConverting := true;
      }
    }

    /** `IsInputEmpty()`. */
    function IsInputEmpty(): (r: bool)
      reads this
      ensures Valid() ==> (r <==> inputCount == 0)
      ensures r ==> GetFreeInputResourceCount() == 0
    {
      inputCount <= 0
    }

    /** `IsOutputEmpty()`. */
    function IsOutputEmpty(): (r: bool)
      reads this
      ensures Idle() ==> r
    {
      outputCount <= 0
    }
  }

  /** A fresh default converter given `count` resources and then started is
      not converting: its empty input zone reports no free room, so nothing
      is taken in. */
  method StartAfterAdding(count: int32) returns (converting: bool, inputCount: int32)
    ensures !converting && inputCount == 0
  {
    var converter := new ResourceConverter.Default();
    var _ := converter.AddInputResource(count);
    converter.StartConverting();
    converting := converter.isConverting;
    inputCount := converter.inputCount;
  }

  /** A fresh converter of capacity `capacity` hands all of a positive
      `count` back: the change is the whole count, and it equals `count`
      minus the free room reported afterwards. */
  method ChangeAfterAdding(capacity: int32, count: int32) returns (changeCount: int32, free: int32)
    ensures changeCount == (if count > 0 then count else 0)
    ensures free == 0
    ensures count > 0 ==> changeCount as int == count as int - free as int
  {
    var converter := new ResourceConverter(capacity, capacity);
    changeCount := converter.AddInputResource(count);
    free := converter.GetFreeInputResourceCount();
  }
}
