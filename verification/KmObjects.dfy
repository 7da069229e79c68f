/** The table of shared objects. Values are the bit patterns of floats. */
module KmObjects {
  import opened Bytes

  const TARGET_THROTTLE := 0
  const TARGET_BRAKING := 1
  const TARGET_STEERING := 2
  const MISION_ORIN := 3
  const MACHINE_STATE_ORIN := 4
  const SHUTDOWN_ORIN := 5
  const KM_OBJ_LAST := 13

  /** OBJECT_VALUE_ERROR: the pattern of NAN. */
  const OBJECT_VALUE_ERROR: U32 := 0x7FC0_0000

  type Table = t: seq<U32> | |t| == KM_OBJ_LAST witness [0, 0, 0, 0, 0, 0, 0, 0, 0, 0, 0, 0, 0]

  class Objects {
    const values: array<U32>

    ghost predicate Valid() { values.Length == KM_OBJ_LAST }

    ghost function Contents(): Table
      requires Valid()
      reads values
    {
      values[..]
    }

    /** A static array starts as zeros. */
    constructor ()
      ensures Valid() && fresh(values) && forall i :: 0 <= i < KM_OBJ_LAST ==> Contents()[i] == 0
    {
      values := new U32[KM_OBJ_LAST](_ => 0);
    }

    /** KM_OBJ_SetObjectValue: 1 for a known object, 0 for an unknown one. */
    method SetObjectValue(id: nat, value: U32) returns (r: nat)
      requires Valid()
      modifies values
      ensures id < KM_OBJ_LAST ==> r == 1 && Contents() == old(Contents())[id := value]
      ensures id >= KM_OBJ_LAST ==> r == 0 && Contents() == old(Contents())
    {
      if id >= KM_OBJ_LAST {
        return 0;
      }
      values[id] := value;
      return 1;
    }

    /** KM_OBJ_GetObjectValue */
    method GetObjectValue(id: nat) returns (value: U32)
      requires Valid()
      ensures value == if id < KM_OBJ_LAST then Contents()[id] else 0x7FC0_0000
    {
      if id >= KM_OBJ_LAST {
        return OBJECT_VALUE_ERROR;
      }
      value := values[id];
    }
  }
}
