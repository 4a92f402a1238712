/** The part of the instance metadata that storage provisioning reads. */
module Metadata {
  import opened PartitionTables

  datatype Disk = Disk(device: string, partitions: seq<Entry>, wipeTable: bool)
  datatype Raid = Raid(name: string, level: string, devices: seq<string>, spare: seq<string>)
  datatype LogicalVolume = LogicalVolume(name: string, size: uint64, tags: seq<string>)
  datatype VolumeGroup = VolumeGroup(name: string, physicalVolumes: seq<string>,
                                     logicalVolumes: seq<LogicalVolume>, tags: seq<string>)
  datatype Storage = Storage(disks: seq<Disk>, raid: seq<Raid>, volumeGroups: seq<VolumeGroup>)
}
