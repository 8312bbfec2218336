/**
 The records the closed Aura SDK hands to the driver: devices with a name, a
 32-bit type code and an ordered list of lights, each light with a name and
 three writable 8-bit channels.
 */
module Aura {

  /** An 8-bit colour channel. */
  newtype Byte = x: int | 0 <= x < 0x100

  /** An unsigned 32-bit device type code. */
  newtype U32 = x: int | 0 <= x < 0x1_0000_0000

  /** A colour as the framework hands it to `Push`, one byte per channel. */
  datatype Color = Color(red: Byte, green: Byte, blue: Byte)

  /** One light of a vendor device, with its currently written channel values. */
  datatype Light = Light(name: string, red: Byte, green: Byte, blue: Byte)
  {
    /** The channel values of this light as a colour. */
    function Rgb(): Color
    {
      Color(red, green, blue)
    }
  }

  /** One entry of the SDK's device collection. */
  datatype VendorDevice = VendorDevice(name: string, typeCode: U32, lights: seq<Light>)
}
